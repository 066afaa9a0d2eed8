/** The JavaScript string built-ins the transformation layer relies on:
    `String.prototype.trim`, `indexOf`, `Number.prototype.toString` on a
    non-negative integer, and `padStart`. */
module Strings {

  // ---------------------------------------------------------------- trim

  /** The code points ECMAScript counts as WhiteSpace or LineTerminator,
      i.e. exactly what `trim` strips from both ends. */
  const Whitespace: set<char> :=
    {'\t', '\n', '\U{000B}', '\U{000C}', '\r', ' ', '\U{00A0}', '\U{1680}',
     '\U{2000}', '\U{2001}', '\U{2002}', '\U{2003}', '\U{2004}', '\U{2005}',
     '\U{2006}', '\U{2007}', '\U{2008}', '\U{2009}', '\U{200A}',
     '\U{2028}', '\U{2029}', '\U{202F}', '\U{205F}', '\U{3000}', '\U{FEFF}'}

  predicate IsWhitespace(c: char) {
    c in Whitespace
  }

  predicate AllWhitespace(s: string) {
    forall k :: 0 <= k < |s| ==> IsWhitespace(s[k])
  }

  /** `s.trimStart()` */
  function TrimStart(s: string): string {
    if s != [] && IsWhitespace(s[0]) then TrimStart(s[1..]) else s
  }

  /** `s.trimEnd()` */
  function TrimEnd(s: string): string {
    if s != [] && IsWhitespace(s[|s| - 1]) then TrimEnd(s[..|s| - 1]) else s
  }

  /** `s.trim()` */
  function Trim(s: string): string {
    TrimEnd(TrimStart(s))
  }

  /** `trimStart` cuts only whitespace, and all of it, from the front: what
      is left is a suffix of `s` that does not start with whitespace. */
  lemma {:induction false} TrimStartStrips(s: string)
    ensures var r := TrimStart(s);
            |r| <= |s| && r == s[|s| - |r|..] && AllWhitespace(s[..|s| - |r|]) &&
            (r == [] || !IsWhitespace(r[0]))
  {
    if s != [] && IsWhitespace(s[0]) {
      TrimStartStrips(s[1..]);
      var r := TrimStart(s);
      assert s[1..][|s| - 1 - |r|..] == s[|s| - |r|..];
      var cut := s[..|s| - |r|];
      forall k | 0 <= k < |cut| ensures IsWhitespace(cut[k]) {
        if k > 0 {
          assert cut[k] == s[1..][..|s| - 1 - |r|][k - 1];
        }
      }
    }
  }

  /** `trimEnd` cuts only whitespace, and all of it, from the back: what is
      left is a prefix of `s` that does not end with whitespace. */
  lemma {:induction false} TrimEndStrips(s: string)
    ensures var r := TrimEnd(s);
            |r| <= |s| && r == s[..|r|] && AllWhitespace(s[|r|..]) &&
            (r == [] || !IsWhitespace(r[|r| - 1]))
  {
    if s != [] && IsWhitespace(s[|s| - 1]) {
      var init := s[..|s| - 1];
      TrimEndStrips(init);
      var r := TrimEnd(s);
      assert init[..|r|] == s[..|r|];
      forall k | 0 <= k < |s| - |r| ensures IsWhitespace(s[|r|..][k]) {
        if k < |s| - 1 - |r| {
          assert s[|r|..][k] == init[|r|..][k];
        }
      }
    }
  }

  /** `trim` keeps the slice of `s` that neither starts nor ends with
      whitespace, and cuts only whitespace on either side of it. */
  lemma TrimStrips(s: string)
    ensures var r := Trim(s);
            (exists i :: 0 <= i <= |s| - |r| && r == s[i..i + |r|] &&
                         AllWhitespace(s[..i]) && AllWhitespace(s[i + |r|..])) &&
            (r == [] || (!IsWhitespace(r[0]) && !IsWhitespace(r[|r| - 1])))
  {
    var t := TrimStart(s);
    var u := TrimEnd(t);
    TrimStartStrips(s);
    TrimEndStrips(t);
    var i := |s| - |t|;
    assert s[i..i + |u|] == u;
    assert s[i + |u|..] == t[|u|..];
    if u != [] {
      assert u[0] == t[0];
    }
  }

  // ------------------------------------------------------------- indexOf

  predicate OccursAt(s: string, t: string, i: int) {
    0 <= i && i + |t| <= |s| && s[i..i + |t|] == t
  }

  predicate Contains(s: string, t: string) {
    exists i :: 0 <= i <= |s| - |t| && OccursAt(s, t, i)
  }

  /** `s.indexOf(t, from)`: the first occurrence at or after `from`, or -1. */
  function IndexFrom(s: string, t: string, from: nat): (r: int)
    ensures r == -1 || (from <= r && OccursAt(s, t, r))
    ensures r == -1 ==> forall k :: from <= k ==> !OccursAt(s, t, k)
    ensures r != -1 ==> forall k :: from <= k < r ==> !OccursAt(s, t, k)
    decreases |s| - from
  {
    if from + |t| > |s| then -1
    else if s[from..from + |t|] == t then from
    else IndexFrom(s, t, from + 1)
  }

  /** `s.indexOf(t)`: -1 exactly when `t` does not occur in `s`, otherwise
      the position of its first occurrence. */
  function IndexOf(s: string, t: string): (r: int)
    ensures r < 0 <==> !Contains(s, t)
    ensures r >= 0 ==> OccursAt(s, t, r) && forall k :: 0 <= k < r ==> !OccursAt(s, t, k)
  {
    IndexFrom(s, t, 0)
  }

  /** An occurrence inside a slice is an occurrence in the whole string. */
  lemma OccursInSlice(s: string, t: string, i: nat, n: nat, j: int)
    requires i + n <= |s| && OccursAt(s[i..i + n], t, j)
    ensures OccursAt(s, t, i + j)
  {
    var u := s[i..i + n];
    forall k | 0 <= k < |t|
      ensures s[i + j..i + j + |t|][k] == t[k]
    {
      assert t[k] == u[j..j + |t|][k] == u[j + k];
    }
  }

  /** An occurrence of a needle that starts and ends with non-whitespace
      cannot reach into the whitespace cut off on either side. */
  lemma OccursInCore(s: string, t: string, i: nat, n: nat, j: int)
    requires t != [] && !IsWhitespace(t[0]) && !IsWhitespace(t[|t| - 1])
    requires i + n <= |s| && AllWhitespace(s[..i]) && AllWhitespace(s[i + n..])
    requires OccursAt(s, t, j)
    ensures OccursAt(s[i..i + n], t, j - i)
  {
    assert s[j] == t[0];
    assert s[j + |t| - 1] == t[|t| - 1];
    var u := s[i..i + n];
    forall k | 0 <= k < |t|
      ensures u[j - i..j - i + |t|][k] == t[k]
    {
      assert t[k] == s[j..j + |t|][k] == s[j + k];
    }
  }

  lemma ContainsCore(s: string, t: string, i: nat, r: string)
    requires t != [] && !IsWhitespace(t[0]) && !IsWhitespace(t[|t| - 1])
    requires i + |r| <= |s| && r == s[i..i + |r|]
    requires AllWhitespace(s[..i]) && AllWhitespace(s[i + |r|..])
    ensures Contains(r, t) <==> Contains(s, t)
  {
    if Contains(r, t) {
      var j :| 0 <= j <= |r| - |t| && OccursAt(r, t, j);
      OccursInSlice(s, t, i, |r|, j);
      assert 0 <= i + j <= |s| - |t| && OccursAt(s, t, i + j);
    }
    if Contains(s, t) {
      var j :| 0 <= j <= |s| - |t| && OccursAt(s, t, j);
      OccursInCore(s, t, i, |r|, j);
      assert 0 <= j - i <= |r| - |t| && OccursAt(r, t, j - i);
    }
  }

  /** A needle without whitespace occurs in `s` exactly when it occurs in
      `s.trim()`. */
  lemma ContainsTrimmed(s: string, t: string)
    requires t != [] && forall k :: 0 <= k < |t| ==> !IsWhitespace(t[k])
    ensures Contains(Trim(s), t) <==> Contains(s, t)
  {
    var r := Trim(s);
    TrimStrips(s);
    var i :| 0 <= i <= |s| - |r| && r == s[i..i + |r|] &&
             AllWhitespace(s[..i]) && AllWhitespace(s[i + |r|..]);
    ContainsCore(s, t, i, r);
  }

  // ------------------------------------------------------------- numbers

  predicate IsDigit(c: char) {
    '0' <= c <= '9'
  }

  predicate AllDigits(s: string) {
    forall k :: 0 <= k < |s| ==> IsDigit(s[k])
  }

  function Digit(d: nat): (c: char)
    requires d < 10
  {
    ('0' as int + d) as char
  }

  /** The value of a string of decimal digits (leading zeros allowed, as
      `parseInt` reads them). */
  function DigitsValue(s: string): nat
    requires AllDigits(s)
  {
    if s == [] then 0
    else 10 * DigitsValue(s[..|s| - 1]) + (s[|s| - 1] as int - '0' as int)
  }

  /** `n.toString()` for a non-negative integer: plain decimal digits with
      no leading zero. */
  function Decimal(n: nat): (s: string)
    ensures |s| >= 1 && AllDigits(s)
    ensures s[0] == '0' ==> n == 0
    ensures n < 10 <==> |s| == 1
    ensures n < 100 <==> |s| <= 2
  {
    if n < 10 then [Digit(n)] else Decimal(n / 10) + [Digit(n % 10)]
  }

  lemma {:induction false} DecimalRoundTrip(n: nat)
    ensures DigitsValue(Decimal(n)) == n
  {
    if n >= 10 {
      var s := Decimal(n);
      assert s[..|s| - 1] == Decimal(n / 10);
      DecimalRoundTrip(n / 10);
    }
  }

  /** Leading zeros do not change what `parseInt` reads. */
  lemma {:induction false} LeadingZeros(z: string, s: string)
    requires forall k :: 0 <= k < |z| ==> z[k] == '0'
    requires AllDigits(s)
    ensures AllDigits(z + s) && DigitsValue(z + s) == DigitsValue(s)
  {
    if s == [] {
      if z != [] {
        assert (z + s)[..|z + s| - 1] == z[..|z| - 1] + s;
        LeadingZeros(z[..|z| - 1], s);
      }
    } else {
      assert (z + s)[..|z + s| - 1] == z + s[..|s| - 1];
      LeadingZeros(z, s[..|s| - 1]);
    }
  }

  // ------------------------------------------------------------ padStart

  function Repeat(c: char, n: nat): (r: string)
    ensures |r| == n && forall k :: 0 <= k < n ==> r[k] == c
  {
    if n == 0 then [] else [c] + Repeat(c, n - 1)
  }

  /** `s.padStart(width, fill)` with a one-character fill: `s` itself when it
      is already `width` long, otherwise `s` behind enough copies of `fill`. */
  function PadStart(s: string, width: nat, fill: char): (r: string)
    ensures |r| == if |s| >= width then |s| else width
    ensures r[|r| - |s|..] == s
    ensures forall k :: 0 <= k < |r| - |s| ==> r[k] == fill
  {
    if |s| >= width then s else Repeat(fill, width - |s|) + s
  }
}
