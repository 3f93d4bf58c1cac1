/**
 Strings as the C code sees them: sequences of characters, one per byte.
 */
module Text {

  datatype Option<+T> = None | Some(value: T)

  const NUL: char := 0 as char

  function Min(a: int, b: int): int {
    if a <= b then a else b
  }

  function Max(a: int, b: int): int {
    if a >= b then a else b
  }

  predicate NoNul(s: string) {
    NUL !in s
  }

  /** The C string stored in a buffer: what precedes the first NUL. */
  function CString(s: string): (r: string)
    ensures r <= s
    ensures NoNul(r)
    ensures |r| < |s| ==> s[|r|] == NUL
  {
    if s == "" || s[0] == NUL then "" else
      assert s == [s[0]] + s[1..];
      [s[0]] + CString(s[1..])
  }

  lemma {:induction false} CStringStops(s: string, t: string)
    ensures CString(s + [NUL] + t) == CString(s)
    ensures NoNul(s) ==> CString(s) == s
  {
    if s != "" {
      assert (s + [NUL] + t)[1..] == s[1..] + [NUL] + t;
      CStringStops(s[1..], t);
    }
  }

  predicate IsSpace(c: char) {
    c == ' ' || c == '\t' || c == '\n' || c == '\r' || c == 11 as char || c == 12 as char
  }

  /** isspace in the C locale: the blank, and the codes from tabulator to carriage return. */
  lemma {:induction false} IsSpaceExactly(c: char)
    ensures IsSpace(c) <==> c as int == 32 || 9 <= c as int <= 13
  {
  }

  predicate IsDigit(c: char) {
    '0' <= c <= '9'
  }

  /** `needle` occurs in `hay`: the C function strstr finds it. */
  predicate Contains(hay: string, needle: string) {
    exists i :: 0 <= i <= |hay| && needle <= hay[i..]
  }

  /** `needle` stands in `hay` at an index. */
  predicate OccursAt(hay: string, needle: string, at: nat) {
    at + |needle| <= |hay| && hay[at..at + |needle|] == needle
  }

  lemma {:induction false} ContainsExactly(hay: string, needle: string)
    ensures Contains(hay, needle) <==> exists at: nat :: OccursAt(hay, needle, at)
  {
    if Contains(hay, needle) {
      var i :| 0 <= i <= |hay| && needle <= hay[i..];
      assert hay[i..i + |needle|] == hay[i..][..|needle|];
      assert OccursAt(hay, needle, i);
    }
    forall at: nat | OccursAt(hay, needle, at)
      ensures Contains(hay, needle)
    {
      assert hay[at..][..|needle|] == hay[at..at + |needle|];
    }
  }

  /** Index of the first `c`, or the length of the text: what strchr finds. */
  function IndexOf(s: string, c: char): (p: nat)
    ensures p <= |s| && c !in s[..p]
    ensures p < |s| ==> s[p] == c
  {
    if s == "" || s[0] == c then 0 else
      assert forall n: nat :: n <= |s[1..]| ==> s[..n + 1] == [s[0]] + s[1..][..n];
      1 + IndexOf(s[1..], c)
  }

  lemma {:induction false} IndexOfIs(s: string, c: char, p: nat)
    requires p <= |s| && c !in s[..p] && (p < |s| ==> s[p] == c)
    ensures IndexOf(s, c) == p
  {
  }

  function Spaces(n: nat): (s: string)
    ensures |s| == n
    ensures forall i :: 0 <= i < n ==> s[i] == ' '
  {
    seq(n, _ => ' ')
  }

  /** The C conversion "%-ws": left-justified, never truncated. */
  function PadRight(s: string, w: nat): (r: string)
    ensures s <= r && |r| == Max(|s|, w)
  {
    s + Spaces(Max(w - |s|, 0))
  }

  function Concat(ls: seq<string>): string {
    if ls == [] then "" else ls[0] + Concat(ls[1..])
  }

  lemma {:induction false} ConcatAppend(a: seq<string>, b: seq<string>)
    ensures Concat(a + b) == Concat(a) + Concat(b)
  {
    if a == [] {
      assert a + b == b;
    } else {
      assert (a + b)[1..] == a[1..] + b;
      ConcatAppend(a[1..], b);
    }
  }

  lemma {:induction false} ConcatSnoc(a: seq<string>, l: string)
    ensures Concat(a + [l]) == Concat(a) + l
  {
    ConcatAppend(a, [l]);
  }

  lemma {:induction false} ConcatTwo(a: string, b: string)
    ensures Concat([a, b]) == a + b
  {
    assert Concat([a]) == a;
    ConcatSnoc([a], b);
    assert [a] + [b] == [a, b];
  }

  lemma {:induction false} Assoc<T>(a: seq<T>, b: seq<T>, c: seq<T>)
    ensures a + b + c == a + (b + c)
  {
  }

  function Repeat<T>(x: T, n: nat): (r: seq<T>)
    ensures |r| == n
  {
    if n == 0 then [] else Repeat(x, n - 1) + [x]
  }

  lemma {:induction false} RepeatHas<T>(x: T, n: nat, y: T)
    ensures y in Repeat(x, n) <==> n > 0 && y == x
  {
    if n > 0 {
      RepeatHas(x, n - 1, y);
    }
  }

  /** The last `n` elements of `s`, or all of them. */
  function LastN<T>(s: seq<T>, n: nat): (r: seq<T>)
    ensures |r| == Min(|s|, n)
  {
    if |s| <= n then s else s[|s| - n..]
  }

  lemma {:induction false} LastNAppend<T>(a: seq<T>, b: seq<T>, n: nat)
    ensures LastN(LastN(a, n) + b, n) == LastN(a + b, n)
  {
    var r := LastN(a, n) + b;
    if |r| > n && |a| > n {
      assert r[|r| - n..] == (a + b)[|a + b| - n..];
    }
  }

  /** `a` is a suffix of `b`. */
  predicate IsSuffix<T(==)>(a: seq<T>, b: seq<T>) {
    |a| <= |b| && a == b[|b| - |a|..]
  }
}
