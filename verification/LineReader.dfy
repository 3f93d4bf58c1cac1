/**
 Reading a file line by line (crashlog/fsutils.c, readline and freadline).

 `Lines` is what a line is; `Chunks` is what successive calls of the reader
 deliver. They agree exactly on the files whose lines fit in the buffer.
 */
module LineReader {
  import opened Text

  // privconfig.h: the larger of two property values (2 * 92) and 4 KB
  const MAXLINESIZE: nat := 4096

  /** Length of the first line, newline included. */
  function LineLen(s: string): (n: nat)
    ensures n <= |s| && (s != "" ==> n > 0)
    ensures forall i :: 0 <= i < n - 1 ==> s[i] != '\n'
    ensures n < |s| ==> s[n - 1] == '\n'
  {
    if s == "" then 0
    else if s[0] == '\n' then 1
    else 1 + LineLen(s[1..])
  }

  /** The lines of a text, each with its newline; the last one may lack it. */
  function Lines(s: string): seq<string> {
    if s == "" then [] else [s[..LineLen(s)]] + Lines(s[LineLen(s)..])
  }

  /** A line ends with its only newline. */
  predicate IsLine(l: string) {
    l != "" && l[|l| - 1] == '\n' && '\n' !in l[..|l| - 1]
  }

  predicate Terminated(s: string) {
    s == "" || s[|s| - 1] == '\n'
  }

  lemma {:induction false} LinesConcat(s: string)
    ensures Concat(Lines(s)) == s
  {
    if s != "" {
      LinesConcat(s[LineLen(s)..]);
    }
  }

  lemma {:induction false} LineLenAt(s: string, k: nat)
    requires k < |s| && s[k] == '\n' && '\n' !in s[..k]
    ensures LineLen(s) == k + 1
  {
    if k > 0 {
      assert s[0] == s[..k][0] && s[..k][1..] == s[1..][..k - 1];
      LineLenAt(s[1..], k - 1);
    }
  }

  lemma {:induction false} LineLenBeyond(s: string, k: nat)
    requires k <= |s| && '\n' !in s[..k]
    ensures LineLen(s) >= if k < |s| then k + 1 else k
  {
    if k > 0 {
      assert s[0] == s[..k][0] && s[..k][1..] == s[1..][..k - 1];
      LineLenBeyond(s[1..], k - 1);
    }
  }

  lemma {:induction false} LineLenOfLine(l: string, t: string)
    requires IsLine(l)
    ensures LineLen(l + t) == |l|
  {
    assert (l + t)[..|l| - 1] == l[..|l| - 1];
    LineLenAt(l + t, |l| - 1);
  }

  lemma {:induction false} LinesCons(l: string, t: string)
    requires IsLine(l)
    ensures Lines(l + t) == [l] + Lines(t)
  {
    LineLenOfLine(l, t);
    assert (l + t)[|l|..] == t;
  }

  /** Text and lines are the same information: the inverse of LinesConcat. */
  lemma {:induction false} LinesOfConcat(ls: seq<string>)
    requires forall i :: 0 <= i < |ls| ==> IsLine(ls[i])
    ensures Lines(Concat(ls)) == ls
    ensures Terminated(Concat(ls))
  {
    if ls != [] {
      LinesOfConcat(ls[1..]);
      LinesCons(ls[0], Concat(ls[1..]));
      assert ls == [ls[0]] + ls[1..];
    }
  }

  lemma {:induction false} TerminatedLines(s: string)
    requires Terminated(s)
    ensures forall i :: 0 <= i < |Lines(s)| ==> IsLine(Lines(s)[i])
  {
    if s != "" {
      var n := LineLen(s);
      var l := s[..n];
      assert s[n - 1] == '\n';
      assert l[..|l| - 1] == s[..n - 1];
      TerminatedLines(s[n..]);
    }
  }

  /** Appending a complete line to a complete text adds one line at the end. */
  lemma {:induction false} LinesAppend(s: string, l: string)
    requires Terminated(s) && IsLine(l)
    ensures Lines(s + l) == Lines(s) + [l]
    ensures Terminated(s + l)
  {
    TerminatedLines(s);
    LinesConcat(s);
    ConcatSnoc(Lines(s), l);
    LinesOfConcat(Lines(s) + [l]);
  }

  // ----- the reader -----

  /** How many bytes one call of readline delivers. */
  function ChunkLen(s: string): (n: nat)
    ensures n <= |s| && (s != "" ==> n > 0)
  {
    Min(LineLen(s), MAXLINESIZE - 1)
  }

  /** How many bytes it consumes: at the limit one more byte is read, and dropped. */
  function Consumed(s: string): (n: nat)
    ensures ChunkLen(s) <= n <= |s| && (s != "" ==> n > 0)
  {
    if LineLen(s) <= MAXLINESIZE - 1 then LineLen(s) else MAXLINESIZE
  }

  function Chunks(s: string): seq<string> {
    if s == "" then [] else [s[..ChunkLen(s)]] + Chunks(s[Consumed(s)..])
  }

  predicate LinesFit(s: string) {
    forall l :: l in Lines(s) ==> |l| <= MAXLINESIZE - 1
  }

  lemma {:induction false} ChunksOfFit(s: string)
    requires LinesFit(s)
    ensures Chunks(s) == Lines(s)
  {
    if s != "" {
      assert s[..LineLen(s)] == Lines(s)[0];
      var t := s[LineLen(s)..];
      forall l | l in Lines(t) ensures |l| <= MAXLINESIZE - 1 {
        assert l in Lines(s);
      }
      ChunksOfFit(t);
    }
  }

  lemma {:induction false} ChunksLoseBytes(s: string)
    ensures |Concat(Chunks(s))| <= |s|
    ensures !LinesFit(s) ==> |Concat(Chunks(s))| < |s|
  {
    if s != "" {
      ChunksLoseBytes(s[Consumed(s)..]);
      if LineLen(s) <= MAXLINESIZE - 1 && !LinesFit(s) {
        var l :| l in Lines(s) && |l| > MAXLINESIZE - 1;
        assert l in Lines(s[LineLen(s)..]);
      }
    }
  }

  /** The reader delivers the lines of the file, and every byte of it, if and
      only if every line (newline included) fits in MAXLINESIZE - 1 bytes. */
  lemma {:induction false} ReaderDeliversLines(s: string)
    ensures Chunks(s) == Lines(s) <==> LinesFit(s)
    ensures Concat(Chunks(s)) == s <==> LinesFit(s)
  {
    LinesConcat(s);
    ChunksLoseBytes(s);
    if LinesFit(s) {
      ChunksOfFit(s);
    }
  }

  /** readline: `pos` is the offset kept by the file descriptor. */
  method Readline(file: string, pos: nat, buffer: array<char>) returns (size: nat, next: nat)
    requires pos <= |file| && buffer.Length == MAXLINESIZE
    modifies buffer
    ensures size == ChunkLen(file[pos..])
    ensures next == pos + Consumed(file[pos..]) && next <= |file|
    ensures buffer[..size] == file[pos..pos + size] && buffer[size] == NUL
  {
    size, next := 0, pos;
    ghost var s := file[pos..];
    var read := false;
    if next < |file| {
      buffer[0] := file[next];
      next, read := next + 1, true;
    }
    while read && size < MAXLINESIZE - 1
      invariant 0 <= size <= MAXLINESIZE - 1 && size <= |s|
      invariant next == pos + size + if read then 1 else 0
      invariant next <= |file|
      invariant read ==> buffer[size] == s[size]
      invariant !read ==> size == |s|
      invariant buffer[..size] == s[..size] && '\n' !in s[..size]
      decreases MAXLINESIZE - size, read
    {
      if buffer[size] == '\n' {
        size := size + 1;
        buffer[size] := NUL;
        assert LineLen(s) == size by { LineLenAt(s, size - 1); }
        assert buffer[..size] == s[..size];
        return;
      }
      size := size + 1;
      if next < |file| {
        buffer[size] := file[next];
        next := next + 1;
      } else {
        read := false;
      }
    }
    buffer[size] := NUL;
    assert LineLen(s) >= size + if read then 1 else 0 by { LineLenBeyond(s, size); }
    assert buffer[..size] == s[..size];
  }
}
