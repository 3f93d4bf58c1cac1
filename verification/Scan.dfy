/**
 Blank-separated fields, as the conversion %s of scanf reads them.
 */
module Scan {
  import opened Text

  /** Length of the run of non-blank characters at the start of `s`. */
  function WordLen(s: string): (n: nat)
    ensures n <= |s|
    ensures forall i :: 0 <= i < n ==> !IsSpace(s[i])
    ensures n < |s| ==> IsSpace(s[n])
  {
    if s == "" || IsSpace(s[0]) then 0 else 1 + WordLen(s[1..])
  }

  /** The blanks that a conversion skips. */
  function SkipBlanks(s: string): string {
    if s != "" && IsSpace(s[0]) then SkipBlanks(s[1..]) else s
  }

  lemma {:induction false} SkipBlanksOver(k: nat, s: string)
    requires s == "" || !IsSpace(s[0])
    ensures SkipBlanks(Spaces(k) + s) == s
  {
    if k == 0 {
      assert Spaces(k) + s == s;
    } else {
      assert (Spaces(k) + s)[1..] == Spaces(k - 1) + s;
      SkipBlanksOver(k - 1, s);
    }
  }

  /** The fields that successive %s conversions read. */
  function Fields(s: string): seq<string> {
    if s == "" then []
    else if IsSpace(s[0]) then Fields(s[1..])
    else [s[..WordLen(s)]] + Fields(s[WordLen(s)..])
  }

  predicate IsWord(s: string) {
    s != "" && forall i :: 0 <= i < |s| ==> !IsSpace(s[i])
  }

  /** A blank, or an end of text, separates `a` from `b`. */
  predicate Separated(a: string, b: string) {
    a == "" || b == "" || IsSpace(a[|a| - 1]) || IsSpace(b[0])
  }

  lemma {:induction false} WordLenOfConcat(a: string, b: string)
    requires WordLen(a) < |a| || b == "" || IsSpace(b[0])
    ensures WordLen(a + b) == WordLen(a)
  {
    if a == "" {
      assert a + b == b;
    } else if !IsSpace(a[0]) {
      assert (a + b)[1..] == a[1..] + b;
      WordLenOfConcat(a[1..], b);
    }
  }

  lemma {:induction false} FieldsConcat(a: string, b: string)
    requires Separated(a, b)
    ensures Fields(a + b) == Fields(a) + Fields(b)
    decreases |a|
  {
    if a == "" {
      assert a + b == b;
    } else if IsSpace(a[0]) {
      assert (a + b)[1..] == a[1..] + b;
      FieldsConcat(a[1..], b);
      assert Fields(a) == Fields(a[1..]);
    } else {
      var n := WordLen(a);
      WordLenOfConcat(a, b);
      var w, rest := a[..n], a[n..];
      assert (a + b)[..n] == w && (a + b)[n..] == rest + b;
      FieldsConcat(rest, b);
      assert Fields(a) == [w] + Fields(rest);
      Assoc([w], Fields(rest), Fields(b));
    }
  }

  lemma {:induction false} FieldsOfWord(w: string)
    requires IsWord(w)
    ensures Fields(w) == [w]
  {
    assert WordLen(w) == |w|;
    assert w[..|w|] == w && w[|w|..] == "";
  }

  lemma {:induction false} FieldsOfBlanks(s: string)
    requires forall i :: 0 <= i < |s| ==> IsSpace(s[i])
    ensures Fields(s) == []
  {
    if s != "" {
      FieldsOfBlanks(s[1..]);
    }
  }

  lemma {:induction false} FieldsOfPadded(w: string, width: nat)
    ensures Fields(PadRight(w, width)) == Fields(w)
  {
    var pad := Spaces(Max(width - |w|, 0));
    FieldsOfBlanks(pad);
    FieldsConcat(w, pad);
  }

  lemma {:induction false} FieldsBound(s: string)
    ensures |Fields(s)| <= |s|
  {
    if s != "" {
      if IsSpace(s[0]) {
        FieldsBound(s[1..]);
      } else {
        FieldsBound(s[WordLen(s)..]);
      }
    }
  }
}
