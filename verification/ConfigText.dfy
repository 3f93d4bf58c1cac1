/**
 The text of a configuration file (crashlog/config.c): how it is cut into lines by fgets,
 trimmed in place, and what each line says.
 */
module ConfigText {
  import opened Text
  import opened LineReader

  const MAXLEN := 127

  // ----- fgets -----

  /** fgets(buff, MAXLEN - 2, f) reads at most MAXLEN - 3 characters: a longer line comes
      in several pieces. */
  function PieceLen(s: string): (n: nat)
    ensures n <= |s| && (s != "" ==> n > 0)
  {
    Min(LineLen(s), MAXLEN - 3)
  }

  function Pieces(s: string): seq<string> {
    if s == "" then [] else [s[..PieceLen(s)]] + Pieces(s[PieceLen(s)..])
  }

  lemma {:induction false} PiecesConcat(s: string)
    ensures Concat(Pieces(s)) == s
  {
    if s != "" {
      PiecesConcat(s[PieceLen(s)..]);
    }
  }

  // ----- config_trim -----

  function TrimLeft(s: string): (r: string)
    ensures |r| <= |s|
  {
    if s != "" && IsSpace(s[0]) then TrimLeft(s[1..]) else s
  }

  function TrimRight(s: string): (r: string)
    ensures r <= s
  {
    if s != "" && IsSpace(s[|s| - 1]) then TrimRight(s[..|s| - 1]) else s
  }

  function Trim(s: string): string {
    TrimRight(TrimLeft(s))
  }

  predicate HasInk(s: string) {
    exists i :: 0 <= i < |s| && !IsSpace(s[i])
  }

  lemma {:induction false} TrimLeftAt(s: string, i: nat)
    requires i < |s| && !IsSpace(s[i]) && forall k :: 0 <= k < i ==> IsSpace(s[k])
    ensures TrimLeft(s) == s[i..]
  {
    if i > 0 {
      TrimLeftAt(s[1..], i - 1);
    }
  }

  lemma {:induction false} TrimRightAt(s: string, i: nat)
    requires i < |s| && !IsSpace(s[i]) && forall k :: i < k < |s| ==> IsSpace(s[k])
    ensures TrimRight(s) == s[..i + 1]
  {
    if i < |s| - 1 {
      var t := s[..|s| - 1];
      TrimRightAt(t, i);
      assert t[..i + 1] == s[..i + 1];
    }
  }

  lemma {:induction false} TrimShape(s: string, i: nat, j: nat)
    requires i <= j < |s| && !IsSpace(s[i]) && !IsSpace(s[j])
    requires forall k :: 0 <= k < i || j < k < |s| ==> IsSpace(s[k])
    ensures Trim(s) == s[i..j + 1]
  {
    TrimLeftAt(s, i);
    TrimRightAt(s[i..], j - i);
  }

  /** A text with some ink has a first and a last character that are not blank. */
  lemma {:induction false} InkEnds(s: string) returns (i: nat, j: nat)
    requires HasInk(s)
    ensures i <= j < |s| && !IsSpace(s[i]) && !IsSpace(s[j])
    ensures forall k :: 0 <= k < i || j < k < |s| ==> IsSpace(s[k])
  {
    var m :| 0 <= m < |s| && !IsSpace(s[m]);
    i, j := 0, |s| - 1;
    while IsSpace(s[i])
      invariant 0 <= i <= m && forall k :: 0 <= k < i ==> IsSpace(s[k])
      decreases m - i
    {
      i := i + 1;
    }
    while IsSpace(s[j])
      invariant m <= j < |s| && forall k :: j < k < |s| ==> IsSpace(s[k])
      decreases j
    {
      j := j - 1;
    }
  }

  lemma {:induction false} TrimBlank(s: string)
    requires !HasInk(s)
    ensures Trim(s) == ""
  {
    if s != "" {
      assert !HasInk(s[1..]) by {
        assert forall i :: 0 <= i < |s[1..]| ==> s[1..][i] == s[i + 1];
      }
      TrimBlank(s[1..]);
      assert IsSpace(s[0]);
    }
  }

  /** Trimming removes exactly the blanks at both ends, and once is enough. */
  lemma {:induction false} TrimTwice(s: string)
    ensures var t := Trim(s);
            && (t == "" <==> !HasInk(s))
            && (t != "" ==> !IsSpace(t[0]) && !IsSpace(t[|t| - 1]))
            && Trim(t) == t
  {
    if HasInk(s) {
      var i, j := InkEnds(s);
      TrimShape(s, i, j);
      var t := Trim(s);
      TrimShape(t, 0, |t| - 1);
    } else {
      TrimBlank(s);
    }
  }

  /** Where the blanks at the end of a text with some ink begin. */
  lemma {:induction false} TrimRightInk(s: string)
    requires HasInk(s)
    ensures var k := |TrimRight(s)|;
            && 0 < k && !IsSpace(s[k - 1]) && forall j :: k <= j < |s| ==> IsSpace(s[j])
  {
    var i, j := InkEnds(s);
    TrimRightAt(s, j);
  }

  /** The C string in a buffer. */
  ghost function Str(s: array<char>): string
    reads s
  {
    CString(s[..])
  }

  lemma {:induction false} StrIs(b: string, c: string)
    requires |c| < |b| && b[..|c|] == c && NoNul(c) && b[|c|] == NUL
    ensures CString(b) == c
  {
    assert b == c + [NUL] + b[|c| + 1..];
    CStringStops(c, b[|c| + 1..]);
  }

  /** The C string of a buffer ends at the first null. */
  lemma {:induction false} StrLength(b: string, n: nat)
    requires n < |b| && b[n] == NUL && forall k :: 0 <= k < n ==> b[k] != NUL
    ensures CString(b) == b[..n]
  {
    if n > 0 {
      StrLength(b[1..], n - 1);
      assert b[..n] == [b[0]] + b[1..][..n - 1];
    }
  }

  /** The buffer after `j` turns of the shift by `i`. */
  function Shifted(b: string, i: nat, j: nat): (r: string)
    requires i + j <= |CString(b)| < |b|
    ensures |r| == |b|
  {
    b[i..i + j] + b[j..]
  }

  /** The last turn writes the null. */
  function ShiftEnded(b: string, i: nat): (r: string)
    requires i <= |CString(b)| < |b|
    ensures |r| == |b|
  {
    Shifted(b, i, |CString(b)| - i)[|CString(b)| - i := NUL]
  }

  function AfterTurns(b: string, i: nat, j: nat): (r: string)
    requires i <= |CString(b)| < |b| && j <= |CString(b)| - i + 1
    ensures |r| == |b|
  {
    if i + j <= |CString(b)| then Shifted(b, i, j) else ShiftEnded(b, i)
  }

  /** While it is shifted the string keeps its length; then it is cut. */
  lemma {:induction false} ShiftLength(b: string, i: nat, j: nat)
    requires i <= |CString(b)| < |b| && j <= |CString(b)| - i + 1
    ensures |CString(AfterTurns(b, i, j))| == if i + j <= |CString(b)| then |CString(b)| else |CString(b)| - i
  {
    if i + j <= |CString(b)| {
      assert forall k :: 0 <= k < |CString(b)| ==> b[k] == CString(b)[k];
      StrLength(Shifted(b, i, j), |CString(b)|);
    } else {
      ShiftEnd(b, i);
    }
  }

  lemma {:induction false} ShiftEnd(b: string, i: nat)
    requires i <= |CString(b)| < |b|
    ensures CString(ShiftEnded(b, i)) == CString(b)[i..]
  {
    StrIs(ShiftEnded(b, i), CString(b)[i..]);
  }

  lemma {:induction false} ShiftStep(b: string, i: nat, j: nat)
    requires i + j < |CString(b)| < |b|
    ensures Shifted(b, i, j)[j := Shifted(b, i, j)[j + i]] == Shifted(b, i, j + 1)
  {
  }

  /** One turn of the shift: s[j] = s[j + i], or the null. */
  method ShiftOne(s: array<char>, ghost b: string, i: nat, j: nat)
    requires i + j <= |CString(b)| < |b| && s[..] == AfterTurns(b, i, j)
    modifies s
    ensures s[..] == AfterTurns(b, i, j + 1)
  {
    ShiftLength(b, i, j);
    ghost var before := s[..];
    if j < |CString(s[..])| - i {
      ShiftStep(b, i, j);
      s[j] := s[j + i];
      assert s[..] == before[j := before[j + i]];
    } else {
      s[j] := NUL;
      assert s[..] == before[j := NUL];
    }
  }

  /** The part of config_trim that shifts the string over its leading blanks. strlen is
      called again at every turn: the null written after the shifted text ends the loop. */
  method ShiftLeft(s: array<char>, i: nat)
    requires 0 < i <= |Str(s)| < s.Length
    modifies s
    ensures Str(s) == old(Str(s))[i..] && |Str(s)| < s.Length
  {
    ghost var b := s[..];
    ghost var n := |CString(b)|;
    var j := 0;
    assert Shifted(b, i, 0) == b;
    while j < |CString(s[..])|
      invariant 0 <= j <= n - i + 1 && s[..] == AfterTurns(b, i, j)
      invariant |CString(s[..])| == if i + j <= n then n else n - i
      decreases n - j
    {
      ShiftOne(s, b, i, j);
      j := j + 1;
      ShiftLength(b, i, j);
    }
    ShiftEnd(b, i);
  }

  /** The byte at an index from the start of a buffer; the bytes below it have negative ones. */
  function Byte(s: string, below: string, i: int): char
    requires -|below| <= i < |s|
  {
    if i >= 0 then s[i] else below[|below| + i]
  }

  /** What cutting an empty text does to the bytes below it: the search for its last character
      goes on there, and the null is written after the character found. */
  function CutBelow(below: string): (r: string)
    ensures |r| == |below|
    ensures HasInk(below) ==> HasInk(r)
  {
    var k := |TrimRight(below)|;
    if k == |below| then below else
      assert below[k := NUL][k] == NUL;
      below[k := NUL]
  }

  /** Where that search ends. */
  function LastInk(t: string, below: string): int {
    if t != "" then |TrimRight(t)| - 1 else |TrimRight(below)| - 1 - |below|
  }

  lemma {:induction false} LastInkIs(t: string, below: string)
    requires (t != "" ==> !IsSpace(t[0])) && HasInk(below)
    ensures var last := LastInk(t, below);
            && -|below| <= last < |t| && (last >= 0 <==> t != "")
            && !IsSpace(Byte(t, below, last))
            && forall i :: last < i < |t| ==> IsSpace(Byte(t, below, i))
  {
    if t != "" {
      assert HasInk(t);
      TrimRightInk(t);
    } else {
      TrimRightInk(below);
    }
  }

  /** The part of config_trim that cuts the trailing blanks. The index is unsigned: for an empty
      text it starts at the byte before the buffer. */
  method CutRight(s: array<char>, below: array<char>)
    requires s != below && |Str(s)| < s.Length && HasInk(below[..])
    requires Str(s) != "" ==> !IsSpace(Str(s)[0])
    modifies s, below
    ensures Str(s) == TrimRight(old(Str(s))) && |Str(s)| < s.Length
    ensures below[..] == if old(Str(s)) != "" then old(below[..]) else CutBelow(old(below[..]))
  {
    ghost var t, m := Str(s), below[..];
    ghost var last := LastInk(t, m);
    LastInkIs(t, m);
    var i := |CString(s[..])| - 1;
    while IsSpace(Byte(s[..], below[..], i))
      invariant last <= i < |t|
      decreases i + below.Length
    {
      assert Byte(s[..], below[..], i) == Byte(t, m, i);
      i := i - 1;
    }
    assert Byte(s[..], below[..], i) == Byte(t, m, i);
    assert i == last;
    if i < |CString(s[..])| - 1 {
      if i + 1 >= 0 {
        s[i + 1] := NUL;
        assert s[..i + 1] == t[..i + 1];
        StrIs(s[..], t[..i + 1]);
      } else {
        below[below.Length + i + 1] := NUL;
      }
    }
  }

  /** config_trim; `below` are the bytes in memory before the string, at least one of them not
      blank. They keep their values if the string is not blank, or the last of them is not. */
  method ConfigTrim(s: array<char>, below: array<char>)
    requires s != below && |Str(s)| < s.Length && HasInk(below[..])
    modifies s, below
    ensures Str(s) == Trim(old(Str(s)))
    ensures |Str(s)| < s.Length
    ensures below[..] == if HasInk(old(Str(s))) then old(below[..]) else CutBelow(old(below[..]))
  {
    ghost var c := Str(s);
    var i := 0;
    while IsSpace(s[i])
      invariant 0 <= i <= |c| && TrimLeft(c[i..]) == TrimLeft(c)
      invariant s[i] == NUL ==> i == |c|
      decreases |c| - i
    {
      i := i + 1;
    }
    if i > 0 {
      ShiftLeft(s, i);
    }
    CutRight(s, below);
    TrimTwice(c);
  }

  /** The bytes below a blank text change when the last of them is blank: then the blank after the
      last character that is not becomes a null. */
  lemma {:induction false} CutBelowIs(below: string, k: nat)
    requires k + 1 < |below| && !IsSpace(below[k]) && forall j :: k < j < |below| ==> IsSpace(below[j])
    ensures CutBelow(below) == below[k + 1 := NUL]
    ensures CutBelow(below[..k + 1]) == below[..k + 1]
  {
    TrimRightAt(below, k);
    TrimRightAt(below[..k + 1], k);
  }

  // ----- what a line says -----

  datatype Line = Nothing | Header(name: string) | Pair(key: string, value: string)

  /** A trimmed line: a comment, the header of a section, a pair split at its first '='. */
  function Parse(line: string): Line {
    if line == "" || line[0] == ';' || line[0] == '#' then Nothing
    else if line[0] == '[' && line[|line| - 1] == ']' then Header(line[1..|line| - 1])
    else if IndexOf(line, '=') == |line| then Nothing
    else Pair(line[..IndexOf(line, '=')], line[IndexOf(line, '=') + 1..])
  }

  /** The pair that a line gives puts the line together again, and the key has no '='. */
  lemma {:induction false} ParsePair(line: string)
    requires Parse(line).Pair?
    ensures Parse(line).key + "=" + Parse(line).value == line && '=' !in Parse(line).key
  {
  }

  // ----- sections -----

  datatype Kv = Kv(key: string, value: string)

  datatype Sec = Sec(name: string, kvs: seq<Kv>)

  /** What a line adds to the sections read so far: pairs go to the last one. */
  function Apply(secs: seq<Sec>, line: Line): seq<Sec> {
    match line
    case Nothing => secs
    case Header(name) => secs + [Sec(name, [])]
    case Pair(key, value) =>
      if secs == [] then [] else
        var last := |secs| - 1;
        secs[last := Sec(secs[last].name, secs[last].kvs + [Kv(key, value)])]
  }

  /** The meaning of a file: its trimmed lines applied in order. */
  function Sections(secs: seq<Sec>, text: string): seq<Sec>
    decreases |text|
  {
    if text == "" then secs
    else Sections(Apply(secs, Parse(Trim(text[..PieceLen(text)]))), text[PieceLen(text)..])
  }

  lemma {:induction false} SectionsStep(secs: seq<Sec>, text: string)
    requires text != ""
    ensures NoNul(text) ==> NoNul(text[PieceLen(text)..])
    ensures Sections(Apply(secs, Parse(Trim(text[..PieceLen(text)]))), text[PieceLen(text)..]) == Sections(secs, text)
  {
  }
}
