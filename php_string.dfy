/**
 * The PHP string functions the core relies on. PHP strings are byte strings;
 * here a `string` stands for one, each char for one byte.
 */
module PhpString {

  /** PHP `empty()` on a string: true for "" and for "0". */
  predicate IsEmpty(s: string) {
    s == "" || s == "0"
  }

  /** Every char of `s` is a byte (code below 256), as in any PHP string. */
  predicate IsBytes(s: string) {
    forall i :: 0 <= i < |s| ==> s[i] as int < 256
  }

  // ---------------------------------------------------------------- case

  function LowerChar(c: char): char {
    if 'A' <= c <= 'Z' then (c as int + 32) as char else c
  }

  function UpperChar(c: char): char {
    if 'a' <= c <= 'z' then (c as int - 32) as char else c
  }

  /** `strtolower`: ASCII letters folded to lower case, every other byte kept. */
  function Lower(s: string): (r: string)
    ensures |r| == |s|
    ensures forall i :: 0 <= i < |s| ==> r[i] == LowerChar(s[i])
  {
    if s == [] then [] else [LowerChar(s[0])] + Lower(s[1..])
  }

  /** `strtoupper`: ASCII letters folded to upper case, every other byte kept. */
  function Upper(s: string): (r: string)
    ensures |r| == |s|
    ensures forall i :: 0 <= i < |s| ==> r[i] == UpperChar(s[i])
  {
    if s == [] then [] else [UpperChar(s[0])] + Upper(s[1..])
  }

  /** Folding twice folds once: a case-folded name is its own key. */
  lemma LowerIdempotent(s: string)
    ensures Lower(Lower(s)) == Lower(s)
  {
    assert forall i :: 0 <= i < |s| ==> LowerChar(LowerChar(s[i])) == LowerChar(s[i]);
  }

  /** A slice of lower-case text is lower-case. */
  lemma LowerSlice(s: string, i: nat, j: nat)
    requires Lower(s) == s && i <= j <= |s|
    ensures Lower(s[i..j]) == s[i..j]
  {
    forall k | 0 <= k < j - i ensures Lower(s[i..j])[k] == s[i..j][k] {
      assert s[i..j][k] == s[i + k] == Lower(s)[i + k];
    }
  }

  /** Names that differ only in the case of ASCII letters fold to the same key. */
  lemma LowerOfUpper(s: string)
    ensures Lower(Upper(s)) == Lower(s)
  {
    assert forall i :: 0 <= i < |s| ==> LowerChar(UpperChar(s[i])) == LowerChar(s[i]);
  }

  // ---------------------------------------------------------------- trim

  /** The bytes `trim()` strips when given no character list: " \t\n\r\0\x0B". */
  const TrimDefault: set<char> := {' ', '\t', '\n', '\r', 0 as char, 11 as char}

  /** `ltrim($s, $cs)`. */
  function TrimLeft(s: string, cs: set<char>): (r: string)
    ensures |r| <= |s| && r == s[|s| - |r|..]
    ensures r == [] || r[0] !in cs
    ensures forall m :: 0 <= m < |s| - |r| ==> s[m] in cs
  {
    if s != [] && s[0] in cs then
      var r := TrimLeft(s[1..], cs);
      assert s[1..][|s| - 1 - |r|..] == s[|s| - |r|..];
      r
    else s
  }

  /** `rtrim($s, $cs)`. */
  function TrimRight(s: string, cs: set<char>): (r: string)
    ensures |r| <= |s| && r == s[..|r|]
    ensures r == [] || r[|r| - 1] !in cs
    ensures forall m :: |r| <= m < |s| ==> s[m] in cs
  {
    if s != [] && s[|s| - 1] in cs then TrimRight(s[..|s| - 1], cs) else s
  }

  /**
   * `r` is a slice of `s` that leaves out only bytes of `cs`, before it and
   * after it.
   */
  predicate StripsEnds(s: string, cs: set<char>, r: string) {
    exists i, j :: 0 <= i <= j <= |s| && r == s[i..j]
                   && (forall m :: 0 <= m < i ==> s[m] in cs)
                   && (forall m :: j <= m < |s| ==> s[m] in cs)
  }

  /** rtrim after ltrim leaves out only bytes of `cs`, before and after what it keeps. */
  lemma TrimBounds(s: string, cs: set<char>)
    ensures StripsEnds(s, cs, TrimRight(TrimLeft(s, cs), cs))
  {
    var left := TrimLeft(s, cs);
    var i, r := |s| - |left|, TrimRight(left, cs);
    assert left == s[i..];
    assert r == left[..|r|];
    assert r == s[i..i + |r|];
    forall m | i + |r| <= m < |s| ensures s[m] in cs {
      assert s[m] == left[m - i];
      assert |r| <= m - i < |left|;
    }
    assert forall m :: 0 <= m < i ==> s[m] in cs;
    assert 0 <= i <= i + |r| <= |s|;
  }

  /**
   * `trim($s, $cs)`: the middle slice of `s` left once every leading and
   * every trailing byte of `cs` is gone. It neither starts nor ends with a
   * byte of `cs`, so it is the longest such slice.
   */
  function TrimOf(s: string, cs: set<char>): (r: string)
    ensures |r| <= |s|
    ensures r == [] || (r[0] !in cs && r[|r| - 1] !in cs)
    ensures StripsEnds(s, cs, r)
  {
    TrimBounds(s, cs);
    TrimRight(TrimLeft(s, cs), cs)
  }

  /** `trim($s)` with the default character list. */
  function Trim(s: string): (r: string)
    ensures |r| <= |s|
    ensures r == [] || (r[0] !in TrimDefault && r[|r| - 1] !in TrimDefault)
    ensures StripsEnds(s, TrimDefault, r)
  {
    TrimOf(s, TrimDefault)
  }

  /** Trimming keeps a lower-case string lower-case. */
  lemma LowerTrimOf(s: string, cs: set<char>)
    requires Lower(s) == s
    ensures Lower(TrimOf(s, cs)) == TrimOf(s, cs)
  {
    var left := TrimLeft(s, cs);
    LowerSlice(s, |s| - |left|, |s|);
    LowerSlice(left, 0, |TrimRight(left, cs)|);
  }

  /** Trimming a trimmed string changes nothing. */
  lemma TrimIdempotent(s: string, cs: set<char>)
    ensures TrimOf(TrimOf(s, cs), cs) == TrimOf(s, cs)
  {
    var t := TrimOf(s, cs);
    assert TrimLeft(t, cs) == t;
    assert TrimRight(t, cs) == t;
  }

  // ---------------------------------------------------------------- whitespace

  /** The bytes PCRE's `\s` matches without the `u` modifier: space, \t, \n, \x0B, \f, \r. */
  predicate IsSpace(c: char) {
    c == ' ' || c == '\t' || c == '\n' || c == 11 as char || c == 12 as char || c == '\r'
  }

  /** `preg_match('#\s#', s)` finds a match. */
  predicate HasSpace(s: string) {
    exists i :: 0 <= i < |s| && IsSpace(s[i])
  }

  // ---------------------------------------------------------------- integers

  predicate IsDigit(c: char) {
    '0' <= c <= '9'
  }

  function DigitChar(d: nat): char
    requires d < 10
  {
    ('0' as int + d) as char
  }

  /** Decimal text of a natural number, as PHP's string conversion writes it. */
  function NatToString(n: nat): (r: string)
    ensures r != []
    ensures forall i :: 0 <= i < |r| ==> IsDigit(r[i])
    ensures r[0] == '0' ==> n == 0 && r == "0"
  {
    if n < 10 then [DigitChar(n)] else NatToString(n / 10) + [DigitChar(n % 10)]
  }

  /** `(string) $n` for an int. */
  function IntToString(n: int): (r: string)
    ensures r != []
    ensures n >= 0 ==> forall i :: 0 <= i < |r| ==> IsDigit(r[i])
    ensures n >= 0 ==> DigitsValue(r) == n && (r[0] == '0' ==> r == "0")
    ensures n < 0 ==> |r| >= 2 && r[0] == '-' && r[1] != '0' && forall i :: 1 <= i < |r| ==> IsDigit(r[i])
    ensures n < 0 ==> DigitsValue(r[1..]) == -n
  {
    if n >= 0 then
      NatToStringRoundTrip(n);
      NatToString(n)
    else
      var digits := NatToString(-n);
      NatToStringRoundTrip(-n);
      assert ("-" + digits)[1..] == digits;
      "-" + digits
  }

  /** The value of a string of decimal digits (PHP's `(int)` cast on such a string). */
  function DigitsValue(s: string): nat
    requires forall i :: 0 <= i < |s| ==> IsDigit(s[i])
  {
    if s == [] then 0
    else
      assert IsDigit(s[|s| - 1]);
      10 * DigitsValue(s[..|s| - 1]) + (s[|s| - 1] as int - '0' as int)
  }

  /** Reading back the decimal text of a number gives the number. */
  lemma {:induction false} NatToStringRoundTrip(n: nat)
    ensures DigitsValue(NatToString(n)) == n
  {
    if n >= 10 {
      NatToStringRoundTrip(n / 10);
      var s := NatToString(n);
      assert s[..|s| - 1] == NatToString(n / 10);
    }
  }
}
