/**
 * The pieces of Python's `str` and `int` behaviour the bot relies on:
 * `strip`, `lower`, `startswith`/`endswith`, `in`, `split`, `int(...)` and
 * the decimal rendering an f-string gives an integer.
 */
module Text {
  import opened Wrappers

  /**
   * The white space `str.strip()` and `int()` remove, as far as ASCII goes:
   * space, tab, line feed, vertical tab, form feed, carriage return and the
   * four separators U+001C to U+001F.
   */
  predicate IsSpace(c: char) {
    c == ' ' || c == '\t' || c == '\n' || c == '\r' || c == '\U{000B}' || c == '\U{000C}'
    || ('\U{001C}' <= c <= '\U{001F}')
  }

  /** `s.lstrip()`: drops the white space at the front. */
  function StripLeft(s: string): (r: string)
    ensures |r| <= |s| && r == s[|s| - |r|..]
    ensures r == [] || !IsSpace(r[0])
    ensures forall i :: 0 <= i < |s| - |r| ==> IsSpace(s[i])
  {
    if |s| > 0 && IsSpace(s[0]) then StripLeft(s[1..]) else s
  }

  /** `s.rstrip()`: drops the white space at the back. */
  function StripRight(s: string): (r: string)
    ensures |r| <= |s| && r == s[..|r|]
    ensures r == [] || !IsSpace(r[|r| - 1])
    ensures forall i :: |r| <= i < |s| ==> IsSpace(s[i])
  {
    if |s| > 0 && IsSpace(s[|s| - 1]) then StripRight(s[..|s| - 1]) else s
  }

  /** `s.strip()`. */
  function Strip(s: string): (r: string)
    ensures |r| <= |s|
    ensures r == [] || (!IsSpace(r[0]) && !IsSpace(r[|r| - 1]))
    ensures forall c :: c in r ==> c in s
  {
    var l := StripLeft(s);
    var r := StripRight(l);
    assert forall c :: c in r ==> c in l;
    r
  }

  /**
   * `strip()` removes exactly the white space at both ends: the result is
   * the stretch of the input that starts after the leading white space, and
   * only white space surrounds it.
   */
  lemma {:induction false} StripSpan(s: string)
    ensures var r := Strip(s); var i := |s| - |StripLeft(s)|;
      && i + |r| <= |s| && r == s[i..i + |r|]
      && (forall k :: 0 <= k < i ==> IsSpace(s[k]))
      && (forall k :: i + |r| <= k < |s| ==> IsSpace(s[k]))
  {
    var l := StripLeft(s);
    var i := |s| - |l|;
    assert Strip(s) == StripRight(l);
    StripRightSpan(s, i, l);
  }

  /** The right-stripped tail `l == s[i..]` of `s` is a slice of `s` followed by white space only. */
  lemma {:induction false} StripRightSpan(s: string, i: nat, l: string)
    requires i <= |s| && l == s[i..]
    ensures var r := StripRight(l);
      && i + |r| <= |s| && r == s[i..i + |r|]
      && (forall k :: i + |r| <= k < |s| ==> IsSpace(s[k]))
  {
    var r := StripRight(l);
    assert r == l[..|r|];
    forall k | i + |r| <= k < |s| ensures IsSpace(s[k]) {
      assert s[k] == l[k - i];
    }
  }

  /** A string with no white space at either end is its own `strip()`. */
  lemma StripTrimmed(s: string)
    requires s == [] || (!IsSpace(s[0]) && !IsSpace(s[|s| - 1]))
    ensures Strip(s) == s
  {
  }

  function LowerChar(c: char): char {
    if 'A' <= c <= 'Z' then (c as int - 'A' as int + 'a' as int) as char else c
  }

  /** `s.lower()` on ASCII letters. */
  function Lower(s: string): (r: string)
    ensures |r| == |s|
    ensures forall i :: 0 <= i < |s| ==> r[i] == LowerChar(s[i])
  {
    seq(|s|, i requires 0 <= i < |s| => LowerChar(s[i]))
  }

  lemma LowerAppend(a: string, b: string)
    ensures Lower(a + b) == Lower(a) + Lower(b)
  {
  }

  predicate StartsWith(s: string, prefix: string) {
    |prefix| <= |s| && s[..|prefix|] == prefix
  }

  predicate EndsWith(s: string, suffix: string) {
    |suffix| <= |s| && s[|s| - |suffix|..] == suffix
  }

  /** A character in neither part is not in their concatenation. */
  lemma NotInConcat(a: string, b: string, x: char)
    requires x !in a && x !in b
    ensures x !in a + b
  {
    assert forall i :: 0 <= i < |a + b| ==> (a + b)[i] == if i < |a| then a[i] else b[i - |a|];
  }

  /** Putting text in front keeps both ends: the front as a prefix, the old suffix as a suffix. */
  lemma ConcatEnds(a: string, b: string, suffix: string)
    requires EndsWith(b, suffix)
    ensures StartsWith(a + b, a) && EndsWith(a + b, suffix)
  {
    var r := a + b;
    assert r[..|a|] == a;
    assert r[|r| - |suffix|..] == b[|b| - |suffix|..];
  }

  /**
   * The index of the leftmost occurrence of `sub` in `s` (`s.find(sub)`,
   * and where a regular expression that starts with the literal `sub`
   * first matches).
   */
  function Find(s: string, sub: string): (r: Option<nat>)
    ensures r.Some? ==> r.value + |sub| <= |s| && StartsWith(s[r.value..], sub)
  {
    if StartsWith(s, sub) then Some(0)
    else if |s| == 0 then None
    else match Find(s[1..], sub)
      case None => None
      case Some(i) => Some(i + 1)
  }

  /** `Find` gives the leftmost occurrence, and None only when there is none. */
  lemma {:induction false} FindLeftmost(s: string, sub: string)
    ensures var r := Find(s, sub);
      && (r.Some? ==> forall j :: 0 <= j < r.value ==> !StartsWith(s[j..], sub))
      && (r.None? ==> forall j :: 0 <= j <= |s| ==> !StartsWith(s[j..], sub))
    decreases |s|
  {
    if !StartsWith(s, sub) && |s| > 0 {
      FindLeftmost(s[1..], sub);
      assert s[0..] == s;
      assert forall j :: 1 <= j <= |s| ==> s[j..] == s[1..][j - 1..];
    }
  }

  /** An occurrence at `k` with none before it is the one `Find` returns. */
  lemma {:induction false} FindAt(s: string, sub: string, k: nat)
    requires k + |sub| <= |s| && s[k..k + |sub|] == sub
    requires forall j :: 0 <= j < k ==> !StartsWith(s[j..], sub)
    ensures Find(s, sub) == Some(k)
  {
    FindLeftmost(s, sub);
    assert s[k..][..|sub|] == s[k..k + |sub|];
  }

  /** `sub in s`. */
  predicate Contains(s: string, sub: string) {
    Find(s, sub).Some?
  }

  /** The number of times `c` occurs in `s`. */
  function Occurrences(s: string, c: char): nat {
    if |s| == 0 then 0 else (if s[0] == c then 1 else 0) + Occurrences(s[1..], c)
  }

  /** `s.split(c)` for a one-character separator. */
  function Split(s: string, c: char): (r: seq<string>)
    ensures |r| == Occurrences(s, c) + 1
    ensures forall k :: 0 <= k < |r| ==> c !in r[k]
  {
    if |s| == 0 then [""]
    else
      var rest := Split(s[1..], c);
      if s[0] == c then [""] + rest else [[s[0]] + rest[0]] + rest[1..]
  }

  /** A string without the separator splits into itself alone. */
  lemma {:induction false} SplitNone(s: string, c: char)
    requires c !in s
    ensures Split(s, c) == [s]
  {
    if |s| > 0 {
      SplitNone(s[1..], c);
      assert [s[0]] + s[1..] == s;
    }
  }

  /** Splitting `a + c + b` at its only separator gives back `a` and `b`. */
  lemma {:induction false} SplitJoin(a: string, c: char, b: string)
    requires c !in a && c !in b
    ensures Split(a + [c] + b, c) == [a, b]
  {
    if |a| == 0 {
      assert a + [c] + b == [c] + b;
      assert ([c] + b)[1..] == b;
      SplitNone(b, c);
    } else {
      SplitJoin(a[1..], c, b);
      assert (a + [c] + b)[1..] == a[1..] + [c] + b;
      assert [a[0]] + a[1..] == a;
    }
  }

  /** The first field is empty when the text starts with the separator. */
  lemma SplitLeadingSeparator(s: string, c: char)
    requires |s| > 0 && s[0] == c
    ensures Split(s, c)[0] == ""
  {
  }

  /** The last field is empty when the text ends with the separator. */
  lemma {:induction false} SplitTrailingSeparator(s: string, c: char)
    requires |s| > 0 && s[|s| - 1] == c
    ensures var r := Split(s, c); r[|r| - 1] == ""
  {
    if |s| > 1 {
      SplitTrailingSeparator(s[1..], c);
    }
  }

  predicate IsDigit(c: char) {
    '0' <= c <= '9'
  }

  predicate AllDigits(s: string) {
    forall i :: 0 <= i < |s| ==> IsDigit(s[i])
  }

  function DigitValue(c: char): nat
    requires IsDigit(c)
  {
    c as int - '0' as int
  }

  function DigitChar(d: nat): (c: char)
    requires d < 10
    ensures IsDigit(c) && DigitValue(c) == d
  {
    ('0' as int + d) as char
  }

  /** The value of a string of decimal digits. */
  function DigitsValue(s: string): nat
    requires AllDigits(s)
  {
    if |s| == 0 then 0 else 10 * DigitsValue(s[..|s| - 1]) + DigitValue(s[|s| - 1])
  }

  /** The decimal digits of `n`, without leading zeros: `str(n)`. */
  function NatToString(n: nat): (r: string)
    ensures |r| >= 1 && AllDigits(r)
  {
    if n < 10 then [DigitChar(n)] else NatToString(n / 10) + [DigitChar(n % 10)]
  }

  /** `str(i)` for any integer: a minus sign before the digits of a negative one. */
  function IntToString(i: int): (r: string)
    ensures |r| >= 1 && !IsSpace(r[0]) && !IsSpace(r[|r| - 1])
    ensures (i >= 0 ==> AllDigits(r)) && (i < 0 ==> r[0] == '-' && AllDigits(r[1..]))
  {
    if i < 0 then "-" + NatToString(-i) else NatToString(i)
  }

  /** An optional sign, then at least one decimal digit, nothing else. */
  function ParseSigned(t: string): (r: Option<int>)
    ensures r.Some? && '-' !in t ==> r.value >= 0
    ensures t == [] ==> r.None?
  {
    if |t| == 0 then None
    else if t[0] == '+' || t[0] == '-' then
      if |t| > 1 && AllDigits(t[1..]) then
        var v: int := DigitsValue(t[1..]);
        Some(if t[0] == '-' then -v else v)
      else None
    else if AllDigits(t) then Some(DigitsValue(t))
    else None
  }

  /**
   * `int(s)` in base 10: optional surrounding white space, an optional sign,
   * then at least one decimal digit; anything else is a `ValueError` (None).
   */
  function ParseInt(s: string): (r: Option<int>)
    ensures r.Some? && '-' !in s ==> r.value >= 0
    ensures Strip(s) == [] ==> r.None?
  {
    ParseSigned(Strip(s))
  }

  /** Reading back the digits `str` writes gives the number. */
  lemma {:induction false} DigitsRoundTrip(n: nat)
    ensures DigitsValue(NatToString(n)) == n
  {
    if n >= 10 {
      DigitsRoundTrip(n / 10);
      var s := NatToString(n);
      assert s[..|s| - 1] == NatToString(n / 10);
    }
  }

  /** The sign-and-digits reading of `str(i)` is `i`. */
  lemma SignedRoundTrip(i: int)
    ensures ParseSigned(IntToString(i)) == Some(i)
  {
    var s := IntToString(i);
    if i < 0 {
      var digits := NatToString(-i);
      assert s == "-" + digits;
      assert s[1..] == digits;
      DigitsRoundTrip(-i);
      assert DigitsValue(s[1..]) == -i;
    } else {
      assert s == NatToString(i);
      DigitsRoundTrip(i);
      assert IsDigit(s[0]);
    }
  }

  /** `int(str(i)) == i` for every integer. */
  lemma ParseIntRoundTrip(i: int)
    ensures ParseInt(IntToString(i)) == Some(i)
  {
    StripTrimmed(IntToString(i));
    SignedRoundTrip(i);
  }
}
