/** The JavaScript string built-ins the modelled code uses: white space as
    `trim()` and the regular-expression class `\s` see it, `trim`, `startsWith`,
    `includes`, and the decimal rendering of an integer in a template string. */
module Text {

  /** ECMAScript LineTerminator: LF, CR, LINE SEPARATOR, PARAGRAPH SEPARATOR.
      The regular-expression `.` matches every character but these. */
  predicate IsLineTerminator(c: char)
  {
    c == '\n' || c == '\r' || c == '\U{2028}' || c == '\U{2029}'
  }

  /** ECMAScript WhiteSpace or LineTerminator: what `trim()` strips and `\s` matches. */
  predicate IsSpace(c: char)
    ensures IsLineTerminator(c) ==> IsSpace(c)
    ensures c == ' ' || c == '\t' || c == '\U{00A0}' ==> IsSpace(c)
    ensures IsSpace(c) ==> !('0' <= c <= '9') && !('a' <= c <= 'z') && !('A' <= c <= 'Z')
  {
    || c == '\t' || c == '\U{000B}' || c == '\U{000C}' || c == ' ' || c == '\U{00A0}'
    || c == '\U{FEFF}' || c == '\U{1680}' || ('\U{2000}' <= c <= '\U{200A}')
    || c == '\U{202F}' || c == '\U{205F}' || c == '\U{3000}'
    || IsLineTerminator(c)
  }

  ghost predicate AllSpace(s: string)
  {
    forall i :: 0 <= i < |s| ==> IsSpace(s[i])
  }

  /** The position of the first non-space character at or after `i`, or `|s|`. */
  function SpacesFrom(s: string, i: nat): (n: nat)
    requires i <= |s|
    ensures i <= n <= |s|
    ensures forall k :: i <= k < n ==> IsSpace(s[k])
    ensures n < |s| ==> !IsSpace(s[n])
    decreases |s| - i
  {
    if i < |s| && IsSpace(s[i]) then SpacesFrom(s, i + 1) else i
  }

  /** The position just after the last non-space character before `j`, or 0. */
  function SpacesBefore(s: string, j: nat): (n: nat)
    requires j <= |s|
    ensures n <= j
    ensures forall k :: n <= k < j ==> IsSpace(s[k])
    ensures n > 0 ==> !IsSpace(s[n - 1])
  {
    if j > 0 && IsSpace(s[j - 1]) then SpacesBefore(s, j - 1) else j
  }

  /** `s` without its leading white space. */
  function TrimStart(s: string): (r: string)
    ensures |r| <= |s| && r == s[|s| - |r|..]
    ensures forall k :: 0 <= k < |s| - |r| ==> IsSpace(s[k])
    ensures r == [] || !IsSpace(r[0])
  {
    s[SpacesFrom(s, 0)..]
  }

  /** `s` without its trailing white space. */
  function TrimEnd(s: string): (r: string)
    ensures |r| <= |s| && r == s[..|r|]
    ensures forall k :: |r| <= k < |s| ==> IsSpace(s[k])
    ensures r == [] || !IsSpace(r[|r| - 1])
  {
    s[..SpacesBefore(s, |s|)]
  }

  /** No line terminator anywhere in `s`: what `.*` must match. */
  predicate NoLineTerminator(s: string)
  {
    forall k :: 0 <= k < |s| ==> !IsLineTerminator(s[k])
  }

  /** `s.trim()`: `s` without the white space at either end. */
  function Trim(s: string): (r: string)
    ensures |r| <= |s|
    ensures r == [] || (!IsSpace(r[0]) && !IsSpace(r[|r| - 1]))
  {
    TrimEnd(TrimStart(s))
  }

  /** What trimming keeps is an infix of `s` with only white space around it. */
  lemma TrimInfix(s: string) returns (i: nat)
    ensures i + |Trim(s)| <= |s| && Trim(s) == s[i..i + |Trim(s)|]
    ensures forall k :: 0 <= k < i ==> IsSpace(s[k])
    ensures forall k :: i + |Trim(s)| <= k < |s| ==> IsSpace(s[k])
  {
    var t := TrimStart(s);
    var r := TrimEnd(t);
    i := |s| - |t|;
    assert t == s[i..];
    forall k | i + |r| <= k < |s| ensures IsSpace(s[k]) {
      assert s[k] == t[k - i];
    }
  }

  /** Trimming twice cuts nothing more. */
  lemma TrimIdempotent(s: string)
    ensures Trim(Trim(s)) == Trim(s)
  {
    var r := Trim(s);
    assert TrimStart(r) == r;
    assert TrimEnd(r) == r;
  }

  /** Trimming leaves white space alone only when there is nothing else. */
  lemma TrimEmpty(s: string)
    ensures Trim(s) == [] <==> AllSpace(s)
  {
    var t := TrimStart(s);
    assert t != [] ==> |TrimEnd(t)| > 0;
  }

  /** Trailing white space added to `t` is trimmed off again. */
  lemma TrimEndAppendSpaces(t: string, w: string)
    requires forall k :: 0 <= k < |w| ==> IsSpace(w[k])
    ensures TrimEnd(t + w) == TrimEnd(t)
  {
    var s := t + w;
    var m := |TrimEnd(t)|;
    var n := |TrimEnd(s)|;
    forall k | m <= k < |s| ensures IsSpace(s[k]) {
      if k < |t| { assert s[k] == t[k]; } else { assert s[k] == w[k - |t|]; }
    }
    if m > 0 {
      assert s[m - 1] == t[m - 1];
    }
    assert n == m;
    assert s[..m] == t[..m];
  }

  /** Trimming ignores white space appended at the end. */
  lemma TrimAppendSpaces(y: string, w: string)
    requires forall k :: 0 <= k < |w| ==> IsSpace(w[k])
    ensures Trim(y + w) == Trim(y)
  {
    var s := y + w;
    var i := |y| - |TrimStart(y)|;
    var n := |s| - |TrimStart(s)|;
    forall k | 0 <= k < i ensures IsSpace(s[k]) {
      assert s[k] == y[k];
    }
    if i < |y| {
      assert s[i] == y[i] && TrimStart(y)[0] == y[i];
      assert n == i;
      assert TrimStart(s) == TrimStart(y) + w;
      TrimEndAppendSpaces(TrimStart(y), w);
    } else {
      forall k | 0 <= k < |s| ensures IsSpace(s[k]) {
        if k >= |y| { assert s[k] == w[k - |y|]; }
      }
      assert TrimStart(s) == [];
    }
  }

  /** `s.startsWith(prefix)`. */
  predicate StartsWith(s: string, prefix: string)
    ensures StartsWith(s, prefix) <==> |prefix| <= |s| && s[..|prefix|] == prefix
  {
    prefix <= s
  }

  /** `haystack.includes(needle)`: `needle` occurs in `haystack` at some position. */
  predicate Includes(haystack: string, needle: string)
    ensures Includes(haystack, needle) <==>
      exists i :: 0 <= i <= |haystack| && |needle| <= |haystack[i..]| && haystack[i..][..|needle|] == needle
  {
    exists i | 0 <= i <= |haystack| - |needle| :: needle <= haystack[i..]
  }

  /** Every string includes the empty string. */
  lemma IncludesEmpty(haystack: string)
    ensures Includes(haystack, "")
  {
    assert "" <= haystack[0..];
  }

  predicate IsDigit(c: char)
  {
    '0' <= c <= '9'
  }

  /** The decimal digits of `n`, most significant first, without leading zeros. */
  function NatToString(n: nat): (r: string)
    ensures r != [] && forall i :: 0 <= i < |r| ==> IsDigit(r[i])
    ensures |r| > 1 ==> r[0] != '0'
  {
    var last := [(('0' as int) + n % 10) as char];
    if n < 10 then last else NatToString(n / 10) + last
  }

  function DigitValue(c: char): nat
    requires IsDigit(c)
  {
    c as int - '0' as int
  }

  /** The value of a string of decimal digits. */
  function DigitsValue(s: string): nat
    requires forall i :: 0 <= i < |s| ==> IsDigit(s[i])
  {
    if s == [] then 0
    else DigitsValue(s[..|s| - 1]) * 10 + DigitValue(s[|s| - 1])
  }

  /** Reading the digits back gives the number. */
  lemma {:induction false} NatToStringValue(n: nat)
    ensures DigitsValue(NatToString(n)) == n
  {
    var r := NatToString(n);
    if n >= 10 {
      NatToStringValue(n / 10);
      assert r[..|r| - 1] == NatToString(n / 10);
    }
  }

  /** An integer in a template string: an optional minus sign, then the digits. */
  function IntToString(n: int): (r: string)
    ensures r != []
    ensures n < 0 <==> r[0] == '-'
  {
    if n < 0 then "-" + NatToString(-n) else NatToString(n)
  }
}
