/**
 update_history_on_cmd_delete (crashlog/history.c): marks the crashes named in the
 command as deleted, by overwriting bytes of the history file in place.
 */
module DeleteCommand {
  import opened Text
  import opened LineReader
  import opened HistoryEntry
  import CommaChain

  const MAXPATTERNS := 10
  const MAXPATTERNSIZE := 48

  /** Writing `s` over the file at an offset, the file being long enough. */
  function Overwrite(file: string, at: nat, s: string): (r: string)
    requires at + |s| <= |file|
    ensures |r| == |file|
  {
    file[..at] + s + file[at + |s|..]
  }

  predicate Matches(id: string, patterns: seq<string>) {
    exists p :: p in patterns && Contains(id, p)
  }

  /** The line names a crash whose id contains one of the patterns. */
  predicate Hit(line: string, patterns: seq<string>) {
    var scan := ScanCrash(line);
    scan.Some? && Matches(scan.value.id, patterns)
  }

  function MarkLine(line: string, patterns: seq<string>): (r: string)
    ensures |r| == |line|
  {
    if Hit(line, patterns) then
      ScannedIsLong(line);
      "DELETE" + line[6..]
    else line
  }

  /** The text with every hit marked. */
  function Mark(text: string, patterns: seq<string>): (r: string)
    ensures |r| == |text|
  {
    if text == "" then "" else
      MarkLine(text[..LineLen(text)], patterns) + Mark(text[LineLen(text)..], patterns)
  }

  // ----- what marking does to the lines -----

  lemma {:induction false} MarkLineKeepsNewline(line: string, patterns: seq<string>)
    requires line != "" && '\n' !in line[..|line| - 1]
    ensures var m := MarkLine(line, patterns);
            '\n' !in m[..|m| - 1] && m[|m| - 1] == line[|line| - 1]
  {
    var m := MarkLine(line, patterns);
    if Hit(line, patterns) {
      ScannedIsLong(line);
      assert m[..|m| - 1] == "DELETE" + line[..|line| - 1][6..];
    }
  }

  lemma {:induction false} LineLenOfMark(line: string, rest: string)
    requires line != "" && '\n' !in line[..|line| - 1]
    requires line[|line| - 1] == '\n' || rest == ""
    ensures LineLen(line + rest) == |line|
  {
    var s := line + rest;
    assert s[..|line| - 1] == line[..|line| - 1];
    if line[|line| - 1] == '\n' {
      LineLenAt(s, |line| - 1);
    } else {
      LineLenBeyond(s, |line| - 1);
    }
  }

  lemma {:induction false} FirstLineOfMark(text: string, patterns: seq<string>)
    requires text != ""
    ensures var n := LineLen(text);
            Lines(Mark(text, patterns)) == [MarkLine(text[..n], patterns)] + Lines(Mark(text[n..], patterns))
  {
    var n := LineLen(text);
    var line := text[..n];
    MarkLineKeepsNewline(line, patterns);
    var m, r := MarkLine(line, patterns), Mark(text[n..], patterns);
    LineLenOfMark(m, r);
    assert (m + r)[..n] == m && (m + r)[n..] == r;
  }

  /** Marking maps every line on its own: lines keep their number, length and offset. */
  lemma {:induction false} MarkIsLineWise(text: string, patterns: seq<string>)
    ensures |Lines(Mark(text, patterns))| == |Lines(text)|
    ensures forall i :: 0 <= i < |Lines(text)| ==>
      Lines(Mark(text, patterns))[i] == MarkLine(Lines(text)[i], patterns)
  {
    if text != "" {
      var n := LineLen(text);
      MarkIsLineWise(text[n..], patterns);
      FirstLineOfMark(text, patterns);
    }
  }

  lemma {:induction false} MarkLineTwice(line: string, patterns: seq<string>)
    ensures MarkLine(MarkLine(line, patterns), patterns) == MarkLine(line, patterns)
  {
    var m := MarkLine(line, patterns);
    if m != line {
      assert m[0] == 'D' && "CRASH"[0] == 'C';
    }
  }

  /** A second command with the same patterns changes nothing. */
  lemma {:induction false} MarkTwice(text: string, patterns: seq<string>)
    ensures Mark(Mark(text, patterns), patterns) == Mark(text, patterns)
  {
    var once := Mark(text, patterns);
    MarkIsLineWise(text, patterns);
    MarkIsLineWise(once, patterns);
    forall i | 0 <= i < |Lines(text)| ensures Lines(Mark(once, patterns))[i] == Lines(once)[i] {
      MarkLineTwice(Lines(text)[i], patterns);
    }
    LinesConcat(once);
    LinesConcat(Mark(once, patterns));
    assert Lines(Mark(once, patterns)) == Lines(once);
  }

  /** Overwriting the first six bytes of a crash line gives the line of a DELETE event. */
  lemma {:induction false} MarkedCrashLine(e: Entry)
    requires Scannable(e) && |FullLine(e)| <= MAXLINESIZE - 1
    ensures |HistoryLine(e)| >= 6
    ensures "DELETE" + HistoryLine(e)[6..] == HistoryLine(e.(event := "DELETE"))
  {
    CrashLineShape(e);
    CrashLineShape(e.(event := "DELETE"));
    SixBytes(PadRight(e.key.value, 22) + (PadRight(e.eventtime.value, 20) +
        (e.type_.value + (" " + (TrimSlash(e.log.value) + "\n")))));
  }

  lemma {:induction false} SixBytes(columns: string)
    ensures ("CRASH" + (Spaces(3) + columns))[6..] == Spaces(2) + columns
  {
  }

  lemma {:induction false} KeyHits(e: Entry)
    requires Scannable(e) && |FullLine(e)| <= MAXLINESIZE - 1
    ensures Hit(HistoryLine(e), [e.key.value])
  {
    PrintScan(e);
    assert e.key.value <= e.key.value[0..];
    assert Contains(e.key.value, e.key.value) && e.key.value in [e.key.value];
  }

  /** When only line `i` is hit, only that line changes. */
  lemma {:induction false} MarkOnly(text: string, i: nat, patterns: seq<string>)
    requires i < |Lines(text)|
    requires forall j :: 0 <= j < |Lines(text)| && j != i ==> !Hit(Lines(text)[j], patterns)
    ensures Lines(Mark(text, patterns)) == Lines(text)[i := MarkLine(Lines(text)[i], patterns)]
  {
    MarkIsLineWise(text, patterns);
  }

  /** Deleting by the key of one printed crash, when no other line's id contains that key,
      changes exactly that line, into the line of the same entry with event DELETE. */
  lemma {:induction false} DeleteByKey(text: string, i: nat, e: Entry)
    requires i < |Lines(text)| && Scannable(e) && |FullLine(e)| <= MAXLINESIZE - 1
    requires Lines(text)[i] == HistoryLine(e)
    requires forall j :: 0 <= j < |Lines(text)| && j != i && ScanCrash(Lines(text)[j]).Some? ==>
      !Contains(ScanCrash(Lines(text)[j]).value.id, e.key.value)
    ensures Lines(Mark(text, [e.key.value])) == Lines(text)[i := HistoryLine(e.(event := "DELETE"))]
  {
    KeyHits(e);
    MarkedCrashLine(e);
    MarkOnly(text, i, [e.key.value]);
  }

  // ----- the file -----

  function MatchCount(id: string, patterns: seq<string>): (n: nat)
    ensures n > 0 <==> Matches(id, patterns)
  {
    if patterns == [] then 0 else
      var last := |patterns| - 1;
      assert patterns == patterns[..last] + [patterns[last]];
      MatchCount(id, patterns[..last]) + if Contains(id, patterns[last]) then 1 else 0
  }

  /** The removals that one line causes: its crash directory, once for each pattern it matches. */
  function LineDirs(line: string, patterns: seq<string>): seq<string> {
    var scan := ScanCrash(line);
    if scan.None? then [] else Repeat(scan.value.dir, MatchCount(scan.value.id, patterns))
  }

  lemma {:induction false} LineDirsHas(line: string, patterns: seq<string>, d: string)
    ensures d in LineDirs(line, patterns) <==> Hit(line, patterns) && ScanCrash(line).value.dir == d
  {
    var scan := ScanCrash(line);
    if scan.Some? {
      RepeatHas(scan.value.dir, MatchCount(scan.value.id, patterns), d);
    }
  }

  function Dirs(text: string, patterns: seq<string>): seq<string> {
    if text == "" then [] else
      LineDirs(text[..LineLen(text)], patterns) + Dirs(text[LineLen(text)..], patterns)
  }

  /** The directories removed are those of the lines that are marked. */
  lemma {:induction false} DirsOfHits(text: string, patterns: seq<string>, d: string)
    ensures d in Dirs(text, patterns) <==>
      exists l :: l in Lines(text) && Hit(l, patterns) && ScanCrash(l).value.dir == d
  {
    if text != "" {
      var line, rest := text[..LineLen(text)], text[LineLen(text)..];
      DirsOfHits(rest, patterns, d);
      assert forall l :: l in Lines(text) <==> l == line || l in Lines(rest);
      LineDirsHas(line, patterns, d);
      assert d in Dirs(text, patterns) <==> d in LineDirs(line, patterns) || d in Dirs(rest, patterns);
    }
  }

  /** What marking one line of the file amounts to. */
  lemma {:induction false} MarkInPlace(file: string, pos: nat, line: string, patterns: seq<string>)
    requires |line| <= pos <= |file| && file[pos - |line|..pos] == line
    ensures Hit(line, patterns) ==> pos - |line| + 6 <= |file|
    ensures file[..pos - |line|] + MarkLine(line, patterns) + file[pos..] ==
            if Hit(line, patterns) then Overwrite(file, pos - |line|, "DELETE") else file
  {
    hide Matches;
    if Hit(line, patterns) {
      ScannedIsLong(line);
      Splice(file, pos - |line|, pos);
    } else {
      Rejoin(file, pos - |line|, pos);
    }
  }

  lemma {:induction false} Splice(file: string, at: nat, pos: nat)
    requires at + 6 <= pos <= |file|
    ensures file[..at] + ("DELETE" + file[at..pos][6..]) + file[pos..] == file[..at] + "DELETE" + file[at + 6..]
  {
    assert file[at..pos][6..] + file[pos..] == file[at + 6..];
  }

  lemma {:induction false} Rejoin(file: string, at: nat, pos: nat)
    requires at <= pos <= |file|
    ensures file[..at] + file[at..pos] + file[pos..] == file
  {
  }

  /** The file after `n` matches on one line. */
  function Overwritten(file: string, at: nat, n: nat): (r: string)
    requires at + 6 <= |file|
    ensures |r| == |file|
  {
    if n == 0 then file else Overwrite(Overwritten(file, at, n - 1), at, "DELETE")
  }

  /** Every match overwrites the same six bytes. */
  lemma {:induction false} OverwrittenIs(file: string, at: nat, n: nat)
    requires at + 6 <= |file|
    ensures Overwritten(file, at, n) == if n > 0 then Overwrite(file, at, "DELETE") else file
  {
    if n > 0 {
      OverwrittenIs(file, at, n - 1);
    }
  }

  lemma {:induction false} MatchCountStep(id: string, patterns: seq<string>, idx: nat)
    requires idx < |patterns|
    ensures MatchCount(id, patterns[..idx + 1]) ==
            MatchCount(id, patterns[..idx]) + if Contains(id, patterns[idx]) then 1 else 0
  {
    assert patterns[..idx + 1][..idx] == patterns[..idx];
  }

  /** The loop over the patterns. */
  method MarkMatches(file: string, at: nat, id: string, dir: string, patterns: seq<string>)
    returns (file': string, dirs: seq<string>)
    requires at + 6 <= |file|
    ensures file' == if Matches(id, patterns) then Overwrite(file, at, "DELETE") else file
    ensures dirs == Repeat(dir, MatchCount(id, patterns))
  {
    file', dirs := file, [];
    ghost var n: nat := 0;
    for idx := 0 to |patterns|
      invariant n == MatchCount(id, patterns[..idx])
      invariant file' == Overwritten(file, at, n) && dirs == Repeat(dir, n)
    {
      MatchCountStep(id, patterns, idx);
      if Contains(id, patterns[idx]) {
        file' := Overwrite(file', at, "DELETE");
        dirs := dirs + [dir];
        n := n + 1;
      }
    }
    assert patterns[..|patterns|] == patterns;
    OverwrittenIs(file, at, n);
  }

  /** Overwriting the bytes of one line that has just been read; `pos` is the offset after it. */
  method MarkOne(file: string, pos: nat, line: string, patterns: seq<string>)
    returns (file': string, dirs: seq<string>)
    requires |line| <= pos <= |file| && file[pos - |line|..pos] == line
    ensures file' == file[..pos - |line|] + MarkLine(line, patterns) + file[pos..]
    ensures dirs == LineDirs(line, patterns)
  {
    hide MarkLine, Overwrite, MatchCount, Matches, ScanCrash;
    MarkInPlace(file, pos, line, patterns);
    var res := ScanCrash(line);
    if res.None? {
      return file, [];
    }
    ScannedIsLong(line);
    file', dirs := MarkMatches(file, pos - |line|, res.value.id, res.value.dir, patterns);
  }

  lemma {:induction false} FitTail(s: string)
    requires s != "" && LinesFit(s)
    ensures LineLen(s) <= MAXLINESIZE - 1
    ensures LinesFit(s[LineLen(s)..])
  {
    assert Lines(s)[0] in Lines(s);
    forall l | l in Lines(s[LineLen(s)..]) ensures |l| <= MAXLINESIZE - 1 {
      assert l in Lines(s);
    }
  }

  lemma {:induction false} MarkStep(marked: string, rest: string, patterns: seq<string>)
    requires rest != ""
    ensures var line, tail := rest[..LineLen(rest)], rest[LineLen(rest)..];
            marked + MarkLine(line, patterns) + Mark(tail, patterns) == marked + Mark(rest, patterns)
  {
    var line, tail := rest[..LineLen(rest)], rest[LineLen(rest)..];
    var m, t := MarkLine(line, patterns), Mark(tail, patterns);
    Assoc(marked, m, t);
    assert Mark(rest, patterns) == m + t;
  }

  lemma {:induction false} DirsStep(dirs: seq<string>, rest: string, patterns: seq<string>)
    requires rest != ""
    ensures var line, tail := rest[..LineLen(rest)], rest[LineLen(rest)..];
            dirs + LineDirs(line, patterns) + Dirs(tail, patterns) == dirs + Dirs(rest, patterns)
  {
    var line, tail := rest[..LineLen(rest)], rest[LineLen(rest)..];
    var m, t := LineDirs(line, patterns), Dirs(tail, patterns);
    Assoc(dirs, m, t);
    assert Dirs(rest, patterns) == m + t;
  }

  lemma {:induction false} ReadBack(buffer: string, s: string)
    requires s != "" && LinesFit(s) && NoNul(s) && ChunkLen(s) < |buffer|
    requires buffer[..ChunkLen(s)] == s[..ChunkLen(s)] && buffer[ChunkLen(s)] == NUL
    ensures CString(buffer) == s[..LineLen(s)]
    ensures Consumed(s) == LineLen(s)
  {
    FitTail(s);
    var n := LineLen(s);
    assert buffer == s[..n] + [NUL] + buffer[n + 1..];
    CStringStops(s[..n], buffer[n + 1..]);
  }

  /** readline, then MarkOne on the line it delivers. */
  method MarkNext(file: string, pos: nat, buffer: array<char>, patterns: seq<string>)
    returns (file': string, next: nat, dirs: seq<string>)
    requires buffer.Length == MAXLINESIZE && pos < |file|
    requires LinesFit(file[pos..]) && NoNul(file[pos..])
    modifies buffer
    ensures next == pos + LineLen(file[pos..]) && next <= |file'|
    ensures file'[..next] == file[..pos] + MarkLine(file[pos..][..LineLen(file[pos..])], patterns)
    ensures file'[next..] == file[pos..][LineLen(file[pos..])..]
    ensures dirs == LineDirs(file[pos..][..LineLen(file[pos..])], patterns)
  {
    var size;
    size, next := Readline(file, pos, buffer);
    ReadBack(buffer[..], file[pos..]);
    var line := CString(buffer[..]);
    file', dirs := MarkOne(file, next, line, patterns);
    assert next - |line| == pos;
  }

  method MarkFile(text: string, patterns: seq<string>) returns (file: string, dirs: seq<string>)
    requires LinesFit(text) && NoNul(text)
    ensures file == Mark(text, patterns)
    ensures dirs == Dirs(text, patterns)
  {
    var buffer := new char[MAXLINESIZE];
    var pos := 0;
    file, dirs := text, [];
    ghost var rest := text;
    while pos < |file|
      invariant 0 <= pos <= |file| && file[pos..] == rest
      invariant LinesFit(rest) && NoNul(rest)
      invariant file[..pos] + Mark(rest, patterns) == Mark(text, patterns)
      invariant dirs + Dirs(rest, patterns) == Dirs(text, patterns)
      decreases |rest|
    {
      MarkStep(file[..pos], rest, patterns);
      DirsStep(dirs, rest, patterns);
      FitTail(rest);
      var next, more;
      file, next, more := MarkNext(file, pos, buffer, patterns);
      pos, dirs, rest := next, dirs + more, rest[LineLen(rest)..];
    }
  }

  /** The patterns of the command, each cut to the size of a record. */
  function Patterns(events: Option<string>): seq<string> {
    if events.None? then [] else CommaChain.CutAll(CommaChain.Tokens(events.value), MAXPATTERNSIZE - 1)
  }

  lemma {:induction false} PatternsOfKeys(keys: seq<string>)
    requires forall k :: k in keys ==> k != "" && ';' !in k && |k| <= 47
    ensures Patterns(Some(CommaChain.Join(keys))) == keys
  {
    CommaChain.TokensOfJoin(keys);
  }

  /** With two keys. */
  lemma {:induction false} PatternsOfTwo(a: string, b: string)
    requires a != "" && b != "" && ';' !in a && ';' !in b && |a| <= 47 && |b| <= 47
    ensures Patterns(Some(a + ";" + b)) == [a, b]
  {
    CommaChain.TwoTokens(a, b);
  }

  /** A longer pattern is cut. */
  lemma {:induction false} PatternCut(key: string)
    requires ';' !in key && |key| > 47
    ensures Patterns(Some(key)) == [key[..47]]
  {
    CommaChain.TokensOfJoin([key]);
  }

  // ----- a command with several keys -----

  function KeysOf(es: seq<Entry>): (r: seq<string>)
    requires forall k :: 0 <= k < |es| ==> Complete(es[k])
    ensures |r| == |es|
  {
    seq(|es|, k requires 0 <= k < |es| && Complete(es[k]) => es[k].key.value)
  }

  function LogsOf(es: seq<Entry>): (r: seq<string>)
    requires forall k :: 0 <= k < |es| ==> es[k].log.Some?
    ensures |r| == |es|
  {
    seq(|es|, k requires 0 <= k < |es| => TrimSlash(es[k].log.value))
  }

  /** The lines `at` of a text are printed crashes, in order, and no other line has an id that
      contains one of their keys. */
  predicate CrashesAt(lines: seq<string>, at: seq<nat>, es: seq<Entry>) {
    && |at| == |es|
    && (forall k, l :: 0 <= k < l < |at| ==> at[k] < at[l])
    && (forall k :: 0 <= k < |at| ==>
          && at[k] < |lines| && Scannable(es[k]) && |FullLine(es[k])| <= MAXLINESIZE - 1
          && ';' !in es[k].key.value && lines[at[k]] == HistoryLine(es[k]))
    && (forall k, j :: 0 <= k < |at| && 0 <= j < |lines| && j != at[k] && ScanCrash(lines[j]).Some? ==>
          !Contains(ScanCrash(lines[j]).value.id, es[k].key.value))
  }

  lemma {:induction false} MatchCountOne(id: string, patterns: seq<string>, p: string)
    requires multiset(patterns)[p] <= 1
    requires Contains(id, p) && forall q :: q in patterns && q != p ==> !Contains(id, q)
    ensures MatchCount(id, patterns) == multiset(patterns)[p]
  {
    if patterns != [] {
      var last := |patterns| - 1;
      assert patterns == patterns[..last] + [patterns[last]];
      MatchCountOne(id, patterns[..last], p);
    }
  }

  lemma {:induction false} CountDistinct(keys: seq<string>, k: nat, n: nat)
    requires k < |keys| && n <= |keys| && forall i, j :: 0 <= i < j < |keys| ==> keys[i] != keys[j]
    ensures multiset(keys[..n])[keys[k]] == if k < n then 1 else 0
  {
    if n > 0 {
      assert keys[..n] == keys[..n - 1] + [keys[n - 1]];
      CountDistinct(keys, k, n - 1);
    }
  }

  lemma {:induction false} KeyOnce(lines: seq<string>, at: seq<nat>, es: seq<Entry>, k: nat)
    requires CrashesAt(lines, at, es) && k < |es|
    ensures multiset(KeysOf(es))[es[k].key.value] == 1
  {
    var keys := KeysOf(es);
    forall i, j | 0 <= i < j < |es|
      ensures keys[i] != keys[j]
    {
      OtherKey(lines, at, es, i, j);
    }
    CountDistinct(keys, k, |keys|);
    assert keys[..|keys|] == keys;
  }

  lemma {:induction false} OtherKey(lines: seq<string>, at: seq<nat>, es: seq<Entry>, k: nat, l: nat)
    requires CrashesAt(lines, at, es) && k < |es| && l < |es| && k != l
    ensures !Contains(es[l].key.value, es[k].key.value) && es[l].key.value != es[k].key.value
  {
    assert at[k] != at[l];
    PrintScan(es[l]);
    KeyHits(es[k]);
    PrintScan(es[k]);
  }

  /** The line of each entry is hit by its own key only. */
  lemma {:induction false} HitOnce(lines: seq<string>, at: seq<nat>, es: seq<Entry>, keys: seq<string>, k: nat)
    requires CrashesAt(lines, at, es) && multiset(keys) == multiset(KeysOf(es)) && k < |es|
    ensures Hit(lines[at[k]], keys) && LineDirs(lines[at[k]], keys) == [TrimSlash(es[k].log.value)]
  {
    var key := es[k].key.value;
    PrintScan(es[k]);
    KeyHits(es[k]);
    KeyOnce(lines, at, es, k);
    forall q | q in keys && q != key
      ensures !Contains(key, q)
    {
      assert q in multiset(keys);
      var l :| 0 <= l < |es| && KeysOf(es)[l] == q;
      OtherKey(lines, at, es, l, k);
    }
    MatchCountOne(key, keys, key);
  }

  lemma {:induction false} NotHit(lines: seq<string>, at: seq<nat>, es: seq<Entry>, keys: seq<string>, j: nat)
    requires CrashesAt(lines, at, es) && multiset(keys) == multiset(KeysOf(es)) && j < |lines| && j !in at
    ensures !Hit(lines[j], keys) && LineDirs(lines[j], keys) == []
  {
    if ScanCrash(lines[j]).Some? {
      forall q | q in keys
        ensures !Contains(ScanCrash(lines[j]).value.id, q)
      {
        assert q in multiset(keys);
        var l :| 0 <= l < |es| && KeysOf(es)[l] == q;
        assert at[l] in at;
      }
    }
  }

  /** The lines `at` of a text, and no others, have one directory each to remove. */
  predicate OneDirAt(lines: seq<string>, at: seq<nat>, dirs: seq<string>, keys: seq<string>) {
    && |at| == |dirs|
    && (forall k, l :: 0 <= k < l < |at| ==> at[k] < at[l])
    && (forall k :: 0 <= k < |at| ==> at[k] < |lines| && LineDirs(lines[at[k]], keys) == [dirs[k]])
    && (forall j :: 0 <= j < |lines| && j !in at ==> LineDirs(lines[j], keys) == [])
  }

  /** What the text that is left has to remove when the first `c` of them have been met. */
  lemma {:induction false} DirsFrom(lines: seq<string>, at: seq<nat>, dirs: seq<string>, keys: seq<string>,
          rest: string, i: nat, c: nat)
    requires OneDirAt(lines, at, dirs, keys)
    requires i <= |lines| && Lines(rest) == lines[i..]
    requires c <= |at| && (c > 0 ==> at[c - 1] < i) && (c < |at| ==> at[c] >= i)
    ensures Dirs(rest, keys) == dirs[c..]
    decreases |rest|
  {
    hide OneDirAt, LineDirs;
    if rest != "" {
      var n := LineLen(rest);
      assert Lines(rest) == [rest[..n]] + Lines(rest[n..]);
      assert lines[i..][0] == lines[i] && lines[i..][1..] == lines[i + 1..];
      NextDir(lines, at, dirs, keys, i, c);
      if c < |at| && at[c] == i {
        DirsFrom(lines, at, dirs, keys, rest[n..], i + 1, c + 1);
        assert dirs[c..] == [dirs[c]] + dirs[c + 1..];
      } else {
        DirsFrom(lines, at, dirs, keys, rest[n..], i + 1, c);
        assert [] + dirs[c..] == dirs[c..];
      }
    } else {
      assert lines[i..] == [];
      AllMet(lines, at, dirs, keys, c);
    }
  }

  lemma {:induction false} NextDir(lines: seq<string>, at: seq<nat>, dirs: seq<string>, keys: seq<string>, i: nat,
          c: nat)
    requires OneDirAt(lines, at, dirs, keys) && i < |lines|
    requires c <= |at| && (c > 0 ==> at[c - 1] < i) && (c < |at| ==> at[c] >= i)
    ensures |at| == |dirs| && (c + 1 < |at| ==> at[c] < at[c + 1])
    ensures LineDirs(lines[i], keys) == if c < |at| && at[c] == i then [dirs[c]] else []
  {
    hide LineDirs;
    if c == |at| || at[c] != i {
      forall k | 0 <= k < |at|
        ensures at[k] != i
      {
        if k < c {
          assert at[k] <= at[c - 1];
        } else {
          assert at[k] >= at[c];
        }
      }
    }
  }

  lemma {:induction false} AllMet(lines: seq<string>, at: seq<nat>, dirs: seq<string>, keys: seq<string>, c: nat)
    requires OneDirAt(lines, at, dirs, keys)
    requires c <= |at| && (c < |at| ==> at[c] >= |lines|)
    ensures c == |at| == |dirs| && dirs[c..] == []
  {
    hide LineDirs;
  }

  lemma {:induction false} CrashDirs(lines: seq<string>, at: seq<nat>, es: seq<Entry>, keys: seq<string>)
    requires CrashesAt(lines, at, es) && multiset(keys) == multiset(KeysOf(es))
    ensures OneDirAt(lines, at, LogsOf(es), keys)
  {
    hide LineDirs, Hit;
    forall k | 0 <= k < |at|
      ensures LineDirs(lines[at[k]], keys) == [LogsOf(es)[k]]
    {
      HitOnce(lines, at, es, keys, k);
    }
    forall j | 0 <= j < |lines| && j !in at
      ensures LineDirs(lines[j], keys) == []
    {
      NotHit(lines, at, es, keys, j);
    }
  }

  lemma {:induction false} CrashMarks(lines: seq<string>, at: seq<nat>, es: seq<Entry>, keys: seq<string>)
    requires CrashesAt(lines, at, es) && multiset(keys) == multiset(KeysOf(es))
    ensures forall k :: 0 <= k < |at| ==> MarkLine(lines[at[k]], keys) == HistoryLine(es[k].(event := "DELETE"))
    ensures forall j :: 0 <= j < |lines| && j !in at ==> MarkLine(lines[j], keys) == lines[j]
  {
    hide LineDirs, Hit;
    forall k | 0 <= k < |at|
      ensures MarkLine(lines[at[k]], keys) == HistoryLine(es[k].(event := "DELETE"))
    {
      HitOnce(lines, at, es, keys, k);
      MarkedCrashLine(es[k]);
    }
    forall j | 0 <= j < |lines| && j !in at
      ensures MarkLine(lines[j], keys) == lines[j]
    {
      NotHit(lines, at, es, keys, j);
    }
  }

  /** The whole command with the keys of several printed crashes, in any order: the lines of
      these entries and no others change, each into the one of event DELETE, and their
      directories are removed, each once, in the order of the file. */
  lemma {:induction false} CommandDeletesEntries(text: string, at: seq<nat>, es: seq<Entry>, keys: seq<string>)
    requires CrashesAt(Lines(text), at, es) && multiset(keys) == multiset(KeysOf(es))
    ensures var patterns := Patterns(Some(CommaChain.Join(keys)));
            var lines, lines' := Lines(text), Lines(Mark(text, patterns));
            && patterns == keys && |lines'| == |lines|
            && (forall k :: 0 <= k < |at| ==> lines'[at[k]] == HistoryLine(es[k].(event := "DELETE")))
            && (forall j :: 0 <= j < |lines| && j !in at ==> lines'[j] == lines[j])
            && Dirs(text, patterns) == LogsOf(es)
  {
    hide MarkLine, Hit, LineDirs, HistoryLine, Dirs, Mark, OneDirAt, Patterns;
    var lines := Lines(text);
    KeysAreTokens(lines, at, es, keys);
    PatternsOfKeys(keys);
    MarkIsLineWise(text, keys);
    CrashMarks(lines, at, es, keys);
    CrashDirs(lines, at, es, keys);
    assert lines[0..] == lines && LogsOf(es)[0..] == LogsOf(es);
    DirsFrom(lines, at, LogsOf(es), keys, text, 0, 0);
  }

  lemma {:induction false} KeysAreTokens(lines: seq<string>, at: seq<nat>, es: seq<Entry>, keys: seq<string>)
    requires CrashesAt(lines, at, es) && multiset(keys) == multiset(KeysOf(es))
    ensures forall q :: q in keys ==> q != "" && ';' !in q && |q| <= 47
  {
    forall q | q in keys
      ensures q != "" && ';' !in q && |q| <= 47
    {
      assert q in multiset(keys);
      var l :| 0 <= l < |es| && KeysOf(es)[l] == q;
      assert Scannable(es[l]);
    }
  }

  /** The whole command. Its result is -1 when there is no file or no pattern. */
  method UpdateOnDelete(file: Option<string>, events: Option<string>)
    returns (res: int, file': Option<string>, dirs: seq<string>)
    requires file.Some? ==> LinesFit(file.value) && NoNul(file.value)
    requires |Patterns(events)| <= MAXPATTERNS
    ensures res == 0 <==> file.Some? && Patterns(events) != []
    ensures res != 0 ==> res == -1 && file' == file && dirs == []
    ensures res == 0 ==>
      var patterns := Patterns(events);
      && file' == Some(Mark(file.value, patterns))
      && dirs == Dirs(file.value, patterns)
  {
    if file.None? {
      return -1, file, [];
    }
    var nbpatterns, patterns := CommaChain.ToFixedArray(events, MAXPATTERNSIZE, MAXPATTERNS);
    assert events.Some? ==> CommaChain.Tokens(events.value)[..|Patterns(events)|] == CommaChain.Tokens(events.value);
    assert patterns == Patterns(events);
    if nbpatterns <= 0 {
      return -1, file, [];
    }
    var text;
    text, dirs := MarkFile(file.value, patterns);
    return 0, Some(text), dirs;
  }
}
