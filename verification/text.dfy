/**
 * The few pieces of Python string behaviour the forms rely on:
 * str.strip(), str.lower() and the "%s" rendering of an integer.
 */
module Text {

  /** White space in the C locale: the ASCII characters str.strip() removes. */
  predicate IsSpace(c: char) {
    c == ' ' || c == '\t' || c == '\n' || c == '\r' || c == '\U{000B}' || c == '\U{000C}'
  }

  predicate AllSpace(s: string) {
    forall k :: 0 <= k < |s| ==> IsSpace(s[k])
  }

  /** Drops leading white space. */
  function TrimLeft(s: string): (r: string)
    ensures |r| <= |s| && r == s[|s| - |r|..]
    ensures r == [] || !IsSpace(r[0])
    ensures AllSpace(s[..|s| - |r|])
  {
    if s != [] && IsSpace(s[0]) then
      var r := TrimLeft(s[1..]);
      assert s[..|s| - |r|] == [s[0]] + s[1..][..|s| - 1 - |r|];
      r
    else s
  }

  /** Drops trailing white space. */
  function TrimRight(s: string): (r: string)
    ensures |r| <= |s| && r == s[..|r|]
    ensures r == [] || !IsSpace(r[|r| - 1])
    ensures AllSpace(s[|r|..])
  {
    if s != [] && IsSpace(s[|s| - 1]) then
      var r := TrimRight(s[..|s| - 1]);
      assert s[|r|..] == s[..|s| - 1][|r|..] + [s[|s| - 1]];
      r
    else s
  }

  /** Python's str.strip() without arguments. */
  function Strip(s: string): (r: string)
    ensures |r| <= |s|
    ensures r == [] || (!IsSpace(r[0]) && !IsSpace(r[|r| - 1]))
    ensures r == [] <==> AllSpace(s)
  {
    var l := TrimLeft(s);
    var r := TrimRight(l);
    assert r == [] ==> s == s[..|s| - |l|] + l[|r|..];
    assert r != [] ==> r[0] == l[0];
    r
  }

  lemma {:induction false} TrimLeftNoop(s: string)
    requires s == [] || !IsSpace(s[0])
    ensures TrimLeft(s) == s
  {
  }

  lemma {:induction false} TrimRightNoop(s: string)
    requires s == [] || !IsSpace(s[|s| - 1])
    ensures TrimRight(s) == s
  {
  }

  /** Stripping a string with white space only around a clean core gives back that core. */
  lemma {:induction false} StripSurrounded(a: string, b: string, c: string)
    requires AllSpace(a) && AllSpace(c)
    requires b != [] && !IsSpace(b[0]) && !IsSpace(b[|b| - 1])
    ensures Strip(a + b + c) == b
  {
    TrimLeftSpaces(a, b + c);
    assert a + b + c == a + (b + c);
    TrimRightSpaces(b, c);
  }

  lemma {:induction false} TrimLeftSpaces(a: string, t: string)
    requires AllSpace(a) && t != [] && !IsSpace(t[0])
    ensures TrimLeft(a + t) == t
    decreases |a|
  {
    var s := a + t;
    if a == [] {
      assert s == t;
      TrimLeftNoop(t);
    } else {
      assert s[0] == a[0] && IsSpace(s[0]);
      assert s[1..] == a[1..] + t;
      TrimLeftSpaces(a[1..], t);
      assert TrimLeft(s) == TrimLeft(s[1..]);
    }
  }

  lemma {:induction false} TrimRightSpaces(t: string, c: string)
    requires AllSpace(c) && t != [] && !IsSpace(t[|t| - 1])
    ensures TrimRight(t + c) == t
    decreases |c|
  {
    if c != [] {
      assert (t + c)[..|t + c| - 1] == t + c[..|c| - 1];
      TrimRightSpaces(t, c[..|c| - 1]);
    } else {
      assert t + c == t;
    }
  }

  /** A string with no white space at either end is its own strip. */
  lemma {:induction false} StripKeepsStripped(s: string)
    requires s == [] || (!IsSpace(s[0]) && !IsSpace(s[|s| - 1]))
    ensures Strip(s) == s
  {
    TrimLeftNoop(s);
    TrimRightNoop(s);
  }

  /** Lower-casing a stripped string leaves nothing more to strip. */
  lemma {:induction false} StripLowerOfStripped(s: string)
    requires s == [] || (!IsSpace(s[0]) && !IsSpace(s[|s| - 1]))
    ensures Strip(Lower(s)) == Lower(s)
  {
    var l := Lower(s);
    if s != [] {
      assert l[0] == LowerChar(s[0]) && l[|l| - 1] == LowerChar(s[|s| - 1]);
    }
    StripKeepsStripped(l);
  }

  /** Python's str.lower() on ASCII letters; every other character is kept. */
  function LowerChar(c: char): (d: char)
    ensures IsSpace(d) <==> IsSpace(c)
    ensures !('A' <= d <= 'Z')
  {
    if 'A' <= c <= 'Z' then (c as int - 'A' as int + 'a' as int) as char else c
  }

  function Lower(s: string): (r: string)
    ensures |r| == |s|
    ensures forall k :: 0 <= k < |s| ==> r[k] == LowerChar(s[k])
  {
    seq(|s|, k requires 0 <= k < |s| => LowerChar(s[k]))
  }

  predicate IsDigit(c: char) {
    '0' <= c <= '9'
  }

  function DigitValue(c: char): (d: nat)
    requires IsDigit(c)
    ensures d < 10
  {
    c as int - '0' as int
  }

  function DigitChar(d: nat): (c: char)
    requires d < 10
    ensures IsDigit(c) && DigitValue(c) == d
  {
    ('0' as int + d) as char
  }

  predicate AllDigits(s: string) {
    forall k :: 0 <= k < |s| ==> IsDigit(s[k])
  }

  /** Decimal rendering of a natural number, most significant digit first. */
  function NatToString(n: nat): (s: string)
    ensures s != [] && AllDigits(s)
    ensures n > 0 ==> s[0] != '0'
    decreases n
  {
    if n < 10 then [DigitChar(n)] else NatToString(n / 10) + [DigitChar(n % 10)]
  }

  /** Python's str() of an int: a minus sign for negatives, then the digits. */
  function IntToString(i: int): (s: string)
    ensures s != []
    ensures forall k :: 0 <= k < |s| ==> s[k] == '-' || IsDigit(s[k])
  {
    if i < 0 then "-" + NatToString(-i) else NatToString(i)
  }

  /** Reads a decimal digit string back. */
  function ParseNat(s: string): nat
    requires AllDigits(s)
  {
    if s == [] then 0 else ParseNat(s[..|s| - 1]) * 10 + DigitValue(s[|s| - 1])
  }

  predicate IsIntText(s: string) {
    if s != [] && s[0] == '-' then AllDigits(s[1..]) else AllDigits(s)
  }

  function ParseInt(s: string): int
    requires IsIntText(s)
  {
    if s != [] && s[0] == '-' then -(ParseNat(s[1..]) as int) else ParseNat(s)
  }

  lemma {:induction false} ParseNatToString(n: nat)
    ensures ParseNat(NatToString(n)) == n
    decreases n
  {
    var s := NatToString(n);
    if n >= 10 {
      ParseNatToString(n / 10);
      assert s[..|s| - 1] == NatToString(n / 10);
    }
  }

  /** Rendering an integer and reading it back gives the integer. */
  lemma {:induction false} ParseIntToString(i: int)
    ensures IsIntText(IntToString(i)) && ParseInt(IntToString(i)) == i
  {
    if i < 0 {
      var d := NatToString(-i);
      assert ("-" + d)[1..] == d;
      ParseNatToString(-i);
    } else {
      ParseNatToString(i);
    }
  }

  /** The position of the first c in s, or |s| when there is none. */
  function IndexOf(s: string, c: char): (k: nat)
    ensures k <= |s|
    ensures k < |s| ==> s[k] == c
    ensures forall j :: 0 <= j < k ==> s[j] != c
  {
    if s == [] then 0
    else if s[0] == c then 0
    else 1 + IndexOf(s[1..], c)
  }
}
