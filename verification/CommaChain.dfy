/**
 commachain_to_fixedarray (crashlog/crashutils.c): splits a chain of patterns separated
 by semicolons into an array of fixed-size records, with strtok_r.
 */
module CommaChain {
  import opened Text

  const EINVAL := 22
  const SEPARATOR := ';'

  /** Number of separators at the start of `s`. */
  function SkipLen(s: string): (n: nat)
    ensures n <= |s|
    ensures n < |s| ==> s[n] != SEPARATOR
  {
    if s == "" || s[0] != SEPARATOR then 0 else 1 + SkipLen(s[1..])
  }

  function TokenLen(s: string): (n: nat)
    ensures n <= |s|
    ensures SEPARATOR !in s[..n]
    ensures n < |s| ==> s[n] == SEPARATOR
  {
    if s == "" || s[0] == SEPARATOR then 0 else
      assert forall n: nat :: n <= |s[1..]| ==> s[..n + 1] == [s[0]] + s[1..][..n];
      1 + TokenLen(s[1..])
  }

  /** The maximal runs of characters other than the separator. */
  function Tokens(s: string): seq<string> {
    if s == "" then []
    else if s[0] == SEPARATOR then Tokens(s[1..])
    else [s[..TokenLen(s)]] + Tokens(s[TokenLen(s)..])
  }

  predicate IsToken(t: string) {
    t != "" && ';' !in t
  }

  lemma {:induction false} TokensAreTokens(s: string)
    ensures forall t :: t in Tokens(s) ==> IsToken(t)
  {
    if s != "" {
      if s[0] == SEPARATOR {
        TokensAreTokens(s[1..]);
      } else {
        TokensAreTokens(s[TokenLen(s)..]);
      }
    }
  }

  /** A chain that joins tokens. */
  function Join(ts: seq<string>): string {
    if ts == [] then "" else if |ts| == 1 then ts[0] else ts[0] + ";" + Join(ts[1..])
  }

  lemma {:induction false} TokenLenStops(t: string, rest: string)
    requires SEPARATOR !in t && (rest == "" || rest[0] == SEPARATOR)
    ensures TokenLen(t + rest) == |t|
  {
    if t == "" {
      assert t + rest == rest;
    } else {
      assert (t + rest)[1..] == t[1..] + rest;
      TokenLenStops(t[1..], rest);
    }
  }

  lemma {:induction false} TokensCons(t: string, rest: string)
    requires IsToken(t) && (rest == "" || rest[0] == SEPARATOR)
    ensures Tokens(t + rest) == [t] + Tokens(rest)
  {
    TokenLenStops(t, rest);
    assert (t + rest)[..|t|] == t && (t + rest)[|t|..] == rest;
  }

  /** Splitting undoes joining. */
  lemma {:induction false} TokensOfJoin(ts: seq<string>)
    requires forall t :: t in ts ==> IsToken(t)
    ensures Tokens(Join(ts)) == ts
  {
    if |ts| == 1 {
      TokensCons(ts[0], "");
      assert ts[0] + "" == ts[0];
    } else if ts != [] {
      var rest := ";" + Join(ts[1..]);
      TokensOfJoin(ts[1..]);
      TokensCons(ts[0], rest);
      assert Join(ts) == ts[0] + rest;
      assert rest[1..] == Join(ts[1..]);
    }
  }

  /** A chain of two. */
  lemma {:induction false} TwoTokens(a: string, b: string)
    requires a != "" && b != "" && ';' !in a && ';' !in b
    ensures Tokens(a + ";" + b) == [a, b]
  {
    TokensOfJoin([a, b]);
    assert Join([a, b]) == a + ";" + Join([a, b][1..]) && [a, b][1..] == [b];
  }

  function Cut(t: string, size: nat): string {
    if |t| <= size then t else t[..size]
  }

  function CutAll(ts: seq<string>, size: nat): (r: seq<string>)
    ensures |r| == |ts|
  {
    seq(|ts|, i requires 0 <= i < |ts| => Cut(ts[i], size))
  }

  /** strtok_r: skips separators, returns the token that follows and what is left. */
  method StrTok(s: string) returns (token: Option<string>, rest: string)
    ensures token.None? ==> Tokens(s) == []
    ensures token.Some? ==> Tokens(s) == [token.value] + Tokens(rest)
    ensures token.Some? ==> |rest| < |s|
  {
    rest := s;
    while rest != "" && rest[0] == SEPARATOR
      invariant Tokens(rest) == Tokens(s) && |rest| <= |s|
      decreases |rest|
    {
      rest := rest[1..];
    }
    if rest == "" {
      return None, "";
    }
    var n := TokenLen(rest);
    token, rest := Some(rest[..n]), rest[n..];
  }

  /** The records of the array are null-terminated and hold at most recordsize - 1
      characters; `res` counts them, or is maxrecords + 1 when the chain holds more. */
  method ToFixedArray(chain: Option<string>, recordsize: nat, maxrecords: nat)
    returns (res: int, records: seq<string>)
    ensures chain.None? || recordsize == 0 ==> res == -22 && records == []
    ensures chain.Some? && recordsize > 0 && maxrecords == 0 ==> res == 0 && records == []
    ensures chain.Some? && recordsize > 0 && maxrecords > 0 ==>
      var ts := Tokens(chain.value);
      && (res == if |ts| <= maxrecords then |ts| else maxrecords + 1)
      && records == CutAll(ts[..Min(|ts|, maxrecords)], recordsize - 1)
  {
    if chain.None? || recordsize == 0 {
      return -EINVAL, [];
    }
    res, records := 0, [];
    if maxrecords == 0 {
      return;
    }
    ghost var ts := Tokens(chain.value);
    var curptr, psave := StrTok(chain.value);
    if curptr.None? {
      return;
    }
    while curptr.Some? && res < maxrecords
      invariant 0 <= res <= maxrecords && res <= |ts|
      invariant curptr.Some? ==> ts[res..] == [curptr.value] + Tokens(psave)
      invariant curptr.None? ==> res == |ts|
      invariant records == CutAll(ts[..res], recordsize - 1)
      decreases maxrecords - res
    {
      assert ts[res] == ts[res..][0] && ts[res + 1..] == ts[res..][1..];
      records := records + [Cut(curptr.value, recordsize - 1)];
      curptr, psave := StrTok(psave);
      res := res + 1;
    }
    if curptr.Some? {
      res := res + 1;
    }
  }
}
