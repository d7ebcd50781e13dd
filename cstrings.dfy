// The C string library functions the proxy relies on, over byte strings.
// A `string` here stands for a C `char` buffer: each character is one byte.

module Wrappers {
  datatype Option<+T> = None | Some(value: T)
}

module CStrings {
  import opened Wrappers

  const NUL: char := '\0'

  /** The C string a buffer holds: its characters before the first NUL. */
  function CString(s: string): (r: string)
    ensures |r| <= |s| && r == s[..|r|]
    ensures NUL !in r
    ensures |r| < |s| ==> s[|r|] == NUL
    decreases |s|
  {
    if s == [] || s[0] == NUL then [] else [s[0]] + CString(s[1..])
  }

  lemma CStringOfNulFree(s: string)
    requires NUL !in s
    ensures CString(s) == s
  {
  }

  /** A NUL-terminated buffer holds exactly the text before the terminator. */
  lemma CStringTerminated(s: string, t: string)
    requires NUL !in s
    ensures CString(s + [NUL] + t) == s
  {
    var b := s + [NUL] + t;
    assert b[..|s|] == s;
    assert b[|s|] == NUL;
  }

  // ---- strstr / strchr ----

  /** The pattern p occurs in s starting at index j. */
  predicate MatchAt(s: string, j: nat, p: string) {
    j + |p| <= |s| && s[j..j + |p|] == p
  }

  /** strstr: the index of the first occurrence of p in s (strchr for a one-character p). */
  function Find(s: string, p: string): (r: Option<nat>)
    ensures r.Some? ==> MatchAt(s, r.value, p)
    ensures r.Some? ==> forall k :: 0 <= k < r.value ==> !MatchAt(s, k, p)
    ensures r.None? ==> forall k :: 0 <= k ==> !MatchAt(s, k, p)
  {
    FindFrom(s, p, 0)
  }

  function FindFrom(s: string, p: string, j: nat): (r: Option<nat>)
    requires j <= |s|
    requires forall k :: 0 <= k < j ==> !MatchAt(s, k, p)
    ensures r.Some? ==> j <= r.value && MatchAt(s, r.value, p)
    ensures r.Some? ==> forall k :: 0 <= k < r.value ==> !MatchAt(s, k, p)
    ensures r.None? ==> forall k :: 0 <= k ==> !MatchAt(s, k, p)
    decreases |s| - j
  {
    if j + |p| > |s| then None
    else if MatchAt(s, j, p) then Some(j)
    else FindFrom(s, p, j + 1)
  }

  /** A match with no earlier match is the one strstr finds. */
  lemma FindIs(s: string, p: string, i: nat)
    requires MatchAt(s, i, p)
    requires forall k :: 0 <= k < i ==> !MatchAt(s, k, p)
    ensures Find(s, p) == Some(i)
  {
  }

  lemma FindNone(s: string, p: string)
    requires forall k :: 0 <= k <= |s| ==> !MatchAt(s, k, p)
    ensures Find(s, p) == None
  {
  }

  /** A match fixes the characters under the pattern. */
  lemma MatchChars(s: string, j: nat, p: string)
    requires MatchAt(s, j, p)
    ensures forall t :: 0 <= t < |p| ==> s[j + t] == p[t]
  {
    forall t | 0 <= t < |p| ensures s[j + t] == p[t] {
      assert s[j..j + |p|][t] == s[j + t];
    }
  }

  /** One differing character rules out a match. */
  lemma Mismatch(s: string, k: nat, p: string, t: nat)
    requires t < |p| && k + t < |s| && s[k + t] != p[t]
    ensures !MatchAt(s, k, p)
  {
    if k + |p| <= |s| {
      assert s[k..k + |p|][t] == s[k + t];
    }
  }

  /** Matching in a + b at an index past a is matching in b. */
  lemma MatchAtShift(a: string, b: string, k: nat, p: string)
    ensures MatchAt(a + b, |a| + k, p) <==> MatchAt(b, k, p)
  {
    if |a| + k + |p| <= |a + b| {
      assert (a + b)[|a| + k..|a| + k + |p|] == b[k..k + |p|];
    }
  }

  /** Matching in a + b entirely inside a is matching in a. */
  lemma MatchAtPrefix(a: string, b: string, k: nat, p: string)
    requires k + |p| <= |a|
    ensures MatchAt(a + b, k, p) <==> MatchAt(a, k, p)
  {
    assert (a + b)[k..k + |p|] == a[k..k + |p|];
  }

  /** When nothing matches inside the prefix a, strstr over a + b is strstr over b, shifted. */
  lemma FindShift(a: string, b: string, p: string)
    requires forall k :: 0 <= k < |a| ==> !MatchAt(a + b, k, p)
    ensures Find(a + b, p) == (match Find(b, p) case Some(j) => Some(|a| + j) case None => None)
  {
    match Find(b, p)
    case Some(j) =>
      MatchAtShift(a, b, j, p);
      forall k | 0 <= k < |a| + j ensures !MatchAt(a + b, k, p) {
        if k >= |a| { MatchAtShift(a, b, k - |a|, p); }
      }
      FindIs(a + b, p, |a| + j);
    case None =>
      forall k | 0 <= k <= |a + b| ensures !MatchAt(a + b, k, p) {
        if k >= |a| { MatchAtShift(a, b, k - |a|, p); }
      }
      FindNone(a + b, p);
  }

  /** A string that starts with p has its first match of p at 0. */
  lemma FindAtStart(p: string, b: string)
    ensures Find(p + b, p) == Some(0)
  {
    assert (p + b)[0..|p|] == p;
    FindIs(p + b, p, 0);
  }

  /** A one-character pattern matches exactly where that character is. */
  lemma MatchAtChar(s: string, k: nat, c: char)
    ensures MatchAt(s, k, [c]) <==> k < |s| && s[k] == c
  {
    if k < |s| { assert s[k..k + 1] == [s[k]]; }
  }

  /** strchr: the first occurrence of c, or None when c does not occur. */
  lemma FindChar(s: string, c: char)
    ensures Find(s, [c]).Some? ==> var j := Find(s, [c]).value; j < |s| && s[j] == c && c !in s[..j]
    ensures Find(s, [c]).None? ==> c !in s
  {
    match Find(s, [c])
    case Some(j) =>
      MatchAtChar(s, j, c);
      forall k | 0 <= k < j ensures s[k] != c { MatchAtChar(s, k, c); }
    case None =>
      forall k | 0 <= k < |s| ensures s[k] != c { MatchAtChar(s, k, c); }
  }

  /** strchr finds nothing when the character is absent. */
  lemma FindCharAbsent(s: string, c: char)
    requires c !in s
    ensures Find(s, [c]) == None
  {
    forall k | 0 <= k <= |s| ensures !MatchAt(s, k, [c]) { MatchAtChar(s, k, c); }
    FindNone(s, [c]);
  }

  // ---- isspace, digits, atoi, "%ld" ----

  /** isspace in the C locale: space, \t, \n, \v, \f, \r. */
  predicate IsSpace(c: char) {
    c == ' ' || c == '\t' || c == '\n' || c == '\r' || c as int == 11 || c as int == 12
  }

  predicate IsDigit(c: char) {
    '0' <= c <= '9'
  }

  /** The string after its leading white space. */
  function SkipSpaces(s: string): (r: string)
    ensures |r| <= |s| && r == s[|s| - |r|..]
    ensures forall i :: 0 <= i < |s| - |r| ==> IsSpace(s[i])
    ensures r != [] ==> !IsSpace(r[0])
    decreases |s|
  {
    if s != [] && IsSpace(s[0]) then SkipSpaces(s[1..]) else s
  }

  /** White space followed by a string that does not start with white space skips to that string. */
  lemma SkipSpacesIs(w: string, x: string)
    requires forall i :: 0 <= i < |w| ==> IsSpace(w[i])
    requires x != [] ==> !IsSpace(x[0])
    ensures SkipSpaces(w + x) == x
  {
    var s := w + x;
    assert s[|s| - |x|..] == x;
  }

  /** Nothing is skipped before a character that is not white space. */
  lemma NoLeadingSpace(s: string)
    requires s == [] || !IsSpace(s[0])
    ensures SkipSpaces(s) == s
  {
  }

  /** The length of the leading run of decimal digits. */
  function DigitRun(s: string): (n: nat)
    ensures n <= |s|
    ensures forall i :: 0 <= i < n ==> IsDigit(s[i])
    ensures n < |s| ==> !IsDigit(s[n])
    decreases |s|
  {
    if s != [] && IsDigit(s[0]) then 1 + DigitRun(s[1..]) else 0
  }

  function DigitOf(c: char): nat
    requires IsDigit(c)
  {
    c as int - '0' as int
  }

  /** The value of a string of decimal digits. */
  function DigitsValue(s: string): nat
    requires forall i :: 0 <= i < |s| ==> IsDigit(s[i])
    decreases |s|
  {
    if s == [] then 0 else DigitsValue(s[..|s| - 1]) * 10 + DigitOf(s[|s| - 1])
  }

  /**
   * atoi: optional white space, an optional sign, then the longest run of
   * decimal digits; 0 when there are no digits.  (Overflow, undefined in C,
   * is not modelled: the value is the mathematical one.)
   */
  function Atoi(s: string): (v: int)
    ensures SkipSpaces(s) == [] || (!IsDigit(SkipSpaces(s)[0]) && SkipSpaces(s)[0] != '+' && SkipSpaces(s)[0] != '-') ==> v == 0
    ensures v < 0 ==> SkipSpaces(s) != [] && SkipSpaces(s)[0] == '-'
  {
    var t := SkipSpaces(s);
    if t != [] && (t[0] == '+' || t[0] == '-') then
      var v: int := LeadingValue(t[1..]);
      if t[0] == '-' then -v else v
    else
      LeadingValue(t)
  }

  /** The value of the leading run of digits (0 when there is none). */
  function LeadingValue(t: string): nat {
    DigitsValue(t[..DigitRun(t)])
  }

  function DigitChar(d: nat): (c: char)
    requires d < 10
    ensures IsDigit(c) && DigitOf(c) == d
  {
    ('0' as int + d) as char
  }

  /** "%ld" of a non-negative value: its decimal digits, most significant first. */
  function Decimal(n: nat): (r: string)
    ensures r != [] && forall i :: 0 <= i < |r| ==> IsDigit(r[i])
    decreases n
  {
    if n < 10 then [DigitChar(n)] else Decimal(n / 10) + [DigitChar(n % 10)]
  }

  function Pow10(k: nat): (r: nat)
    ensures r >= 1
  {
    if k == 0 then 1 else 10 * Pow10(k - 1)
  }

  lemma {:induction false} DecimalValue(n: nat)
    ensures DigitsValue(Decimal(n)) == n
    decreases n
  {
    if n >= 10 {
      var d := Decimal(n / 10);
      assert (d + [DigitChar(n % 10)])[..|d|] == d;
      DecimalValue(n / 10);
    }
  }

  lemma {:induction false} DecimalLength(n: nat, k: nat)
    requires 1 <= k && n < Pow10(k)
    ensures |Decimal(n)| <= k
    decreases k
  {
    if n >= 10 {
      assert k >= 2;
      DecimalLength(n / 10, k - 1);
    }
  }

  /** The digit run of a digit string followed by a non-digit is that string. */
  lemma {:induction false} DigitRunOf(d: string, rest: string)
    requires forall i :: 0 <= i < |d| ==> IsDigit(d[i])
    requires rest != [] ==> !IsDigit(rest[0])
    ensures DigitRun(d + rest) == |d|
    decreases |d|
  {
    if d != [] {
      assert (d + rest)[1..] == d[1..] + rest;
      DigitRunOf(d[1..], rest);
    } else {
      assert d + rest == rest;
    }
  }

  /** The leading digits of a digit string followed by a non-digit are that string. */
  lemma LeadingValueOf(d: string, rest: string)
    requires forall i :: 0 <= i < |d| ==> IsDigit(d[i])
    requires rest != [] ==> !IsDigit(rest[0])
    ensures LeadingValue(d + rest) == DigitsValue(d)
  {
    DigitRunOf(d, rest);
    assert (d + rest)[..|d|] == d;
  }

  /** atoi of a digit string followed by a non-digit is the value of those digits. */
  lemma AtoiOfDigits(d: string, rest: string)
    requires d != [] && forall i :: 0 <= i < |d| ==> IsDigit(d[i])
    requires rest != [] ==> !IsDigit(rest[0])
    ensures Atoi(d + rest) == DigitsValue(d)
  {
    var s := d + rest;
    assert s[0] == d[0];
    NoLeadingSpace(s);
    LeadingValueOf(d, rest);
  }

  /** atoi reads back what "%ld" wrote, whatever non-digit follows it. */
  lemma AtoiDecimal(n: nat, rest: string)
    requires rest != [] ==> !IsDigit(rest[0])
    ensures Atoi(Decimal(n) + rest) == n
  {
    AtoiOfDigits(Decimal(n), rest);
    DecimalValue(n);
  }
}
