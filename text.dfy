/**
 * The two string operations the import relies on: Python's `str.lower()`,
 * restricted to ASCII, and Python's `int(str)` for base 10.
 */
module Text {
  import opened Common

  /** `str.lower()` on one character: ASCII capitals become small letters, all else is kept. */
  function LowerChar(c: char): char
  {
    if 'A' <= c <= 'Z' then (c as int - 'A' as int + 'a' as int) as char else c
  }

  predicate IsUpper(c: char)
  {
    'A' <= c <= 'Z'
  }

  /** `s.lower()`: the same string with every character lowered. */
  function Lower(s: string): (r: string)
    ensures |r| == |s|
    ensures forall i :: 0 <= i < |s| ==> r[i] == LowerChar(s[i])
  {
    if s == [] then [] else [LowerChar(s[0])] + Lower(s[1..])
  }

  lemma LowerCharIdempotent(c: char)
    ensures LowerChar(LowerChar(c)) == LowerChar(c)
    ensures !IsUpper(LowerChar(c))
  {
  }

  /** Lowering twice is lowering once, and a lowered string holds no capital. */
  lemma LowerIdempotent(s: string)
    ensures Lower(Lower(s)) == Lower(s)
    ensures forall i :: 0 <= i < |s| ==> !IsUpper(Lower(s)[i])
  {
    forall i | 0 <= i < |s|
      ensures Lower(Lower(s))[i] == Lower(s)[i] && !IsUpper(Lower(s)[i])
    {
      LowerCharIdempotent(s[i]);
    }
  }

  lemma LowerAppend(a: string, b: string)
    ensures Lower(a + b) == Lower(a) + Lower(b)
  {
    assert forall i :: 0 <= i < |a + b| ==> Lower(a + b)[i] == (Lower(a) + Lower(b))[i];
  }

  /** A string is the lowering of another when it is so character by character. */
  lemma LowerTo(s: string, t: string)
    requires |t| == |s| && forall i :: 0 <= i < |s| ==> t[i] == LowerChar(s[i])
    ensures Lower(s) == t
  {
  }

  /**
   * The ASCII white space `int()` skips around a number: tab, line feed,
   * vertical tab, form feed, carriage return and space. (The separators
   * 28-31, white space to `str.isspace()`, are not skipped: `int()` rejects them.)
   */
  predicate IsSpace(c: char)
  {
    c == ' ' || 9 <= c as int <= 13
  }

  predicate IsDigit(c: char)
  {
    '0' <= c <= '9'
  }

  /** Drops the leading white space. */
  function TrimStart(s: string): (r: string)
    ensures |r| <= |s| && r == s[|s| - |r|..]
    ensures r == [] || !IsSpace(r[0])
    ensures forall i :: 0 <= i < |s| - |r| ==> IsSpace(s[i])
  {
    if s != [] && IsSpace(s[0]) then TrimStart(s[1..]) else s
  }

  /** Drops the trailing white space. */
  function TrimEnd(s: string): (r: string)
    ensures |r| <= |s| && r == s[..|r|]
    ensures r == [] || !IsSpace(r[|r| - 1])
    ensures forall i :: |r| <= i < |s| ==> IsSpace(s[i])
  {
    if s != [] && IsSpace(s[|s| - 1]) then TrimEnd(s[..|s| - 1]) else s
  }

  function Strip(s: string): string
  {
    TrimEnd(TrimStart(s))
  }

  /**
   * The digit part `int()` accepts in base 10: digits, where a single
   * underscore may stand between two digits ("1_000").
   */
  predicate WellFormedDigits(s: string)
  {
    && |s| > 0
    && IsDigit(s[0])
    && forall i {:trigger s[i]} :: 0 <= i < |s| ==> IsDigit(s[i]) || (s[i] == '_' && i + 1 < |s| && IsDigit(s[i + 1]))
  }

  /** The value of a digit string, underscores skipped. */
  function DigitsValue(s: string): nat
  {
    if s == [] then 0
    else
      var c := s[|s| - 1];
      if IsDigit(c) then 10 * DigitsValue(s[..|s| - 1]) + (c as int - '0' as int)
      else DigitsValue(s[..|s| - 1])
  }

  /**
   * The default limit on the number of digits `int()` converts from a string
   * (`sys.get_int_max_str_digits()`); a longer digit string is a `ValueError`.
   */
  const MaxStrDigits: nat := 4300

  /** The digits in a string; the underscores between them do not count. */
  function DigitCount(s: string): (n: nat)
    ensures n <= |s|
  {
    if s == [] then 0 else (if IsDigit(s[0]) then 1 else 0) + DigitCount(s[1..])
  }

  /** Well-formed digits within the limit on their number. */
  predicate Convertible(s: string)
  {
    WellFormedDigits(s) && DigitCount(s) <= MaxStrDigits
  }

  /**
   * `int(s)` for a string: surrounding white space is stripped, then an optional
   * sign and a well-formed digit string of at most `MaxStrDigits` digits must make
   * up the rest; anything else is the ValueError, here `None`.
   */
  function ParseInt(s: string): Option<int>
  {
    ParseSigned(Strip(s))
  }

  /** An optional sign followed by well-formed digits. */
  function ParseSigned(t: string): Option<int>
  {
    if |t| > 0 && (t[0] == '+' || t[0] == '-') then
      if Convertible(t[1..]) then
        Some(if t[0] == '-' then -(DigitsValue(t[1..]) as int) else DigitsValue(t[1..]))
      else None
    else if Convertible(t) then Some(DigitsValue(t))
    else None
  }

  /** `str(n)` for a natural number: decimal digits, no sign, no underscores. */
  function NatToDecimal(n: nat): (r: string)
    ensures |r| > 0 && forall i :: 0 <= i < |r| ==> IsDigit(r[i])
  {
    if n < 10 then ['0' + n as char]
    else NatToDecimal(n / 10) + ['0' + (n % 10) as char]
  }

  /** `str(n)` for any integer. */
  function IntToDecimal(n: int): string
  {
    if n < 0 then "-" + NatToDecimal(-n) else NatToDecimal(n)
  }

  lemma {:induction false} DigitsValueOfDecimal(n: nat)
    ensures DigitsValue(NatToDecimal(n)) == n
  {
    if n >= 10 {
      var s := NatToDecimal(n);
      assert s[..|s| - 1] == NatToDecimal(n / 10);
      DigitsValueOfDecimal(n / 10);
    }
  }

  lemma StripOfUnpadded(t: string)
    requires |t| > 0 && !IsSpace(t[0]) && !IsSpace(t[|t| - 1])
    ensures Strip(t) == t
  {
  }

  lemma {:induction false} DigitCountOfDigits(s: string)
    requires forall i :: 0 <= i < |s| ==> IsDigit(s[i])
    ensures DigitCount(s) == |s|
  {
    if s != [] {
      DigitCountOfDigits(s[1..]);
    }
  }

  /**
   * `int(str(n)) == n`: the parser reads back every integer the formatter
   * writes, as long as `str(n)` itself is within the digit limit (beyond it,
   * `str(n)` raises as well).
   */
  lemma ParseIntOfDecimal(n: int)
    requires |NatToDecimal(if n < 0 then -n else n)| <= MaxStrDigits
    ensures ParseInt(IntToDecimal(n)) == Some(n)
  {
    var s := IntToDecimal(n);
    var d := NatToDecimal(if n < 0 then -n else n);
    DigitsValueOfDecimal(if n < 0 then -n else n);
    DigitCountOfDigits(d);
    StripOfUnpadded(s);
    if n < 0 {
      assert s[1..] == d;
    } else {
      assert s == d;
    }
  }

  /** White space around a number does not change what `int()` reads. */
  lemma ParseIntIgnoresPadding(pre: string, t: string, post: string)
    requires forall i :: 0 <= i < |pre| ==> IsSpace(pre[i])
    requires forall i :: 0 <= i < |post| ==> IsSpace(post[i])
    requires |t| > 0 && !IsSpace(t[0]) && !IsSpace(t[|t| - 1])
    ensures ParseInt(pre + t + post) == ParseInt(t)
  {
    var s := pre + t + post;
    assert s == pre + (t + post);
    TrimStartOfPadded(pre, t + post);
    TrimEndOfPadded(t, post);
    StripOfUnpadded(t);
    assert Strip(s) == t;
  }

  lemma {:induction false} TrimStartOfPadded(pre: string, u: string)
    requires forall i :: 0 <= i < |pre| ==> IsSpace(pre[i])
    requires |u| > 0 && !IsSpace(u[0])
    ensures TrimStart(pre + u) == u
  {
    if pre != [] {
      assert (pre + u)[1..] == pre[1..] + u;
      TrimStartOfPadded(pre[1..], u);
    } else {
      assert pre + u == u;
    }
  }

  lemma {:induction false} TrimEndOfPadded(u: string, post: string)
    requires forall i :: 0 <= i < |post| ==> IsSpace(post[i])
    requires |u| > 0 && !IsSpace(u[|u| - 1])
    ensures TrimEnd(u + post) == u
  {
    if post != [] {
      assert (u + post)[..|u + post| - 1] == u + post[..|post| - 1];
      TrimEndOfPadded(u, post[..|post| - 1]);
    } else {
      assert u + post == u;
    }
  }

  /** A cell with more than `MaxStrDigits` digits is not converted, whatever else it holds. */
  lemma ParseIntRejectsTooManyDigits(s: string)
    requires DigitCount(Strip(s)) > MaxStrDigits
    ensures ParseInt(s) == None
  {
    var t := Strip(s);
    if |t| > 0 && (t[0] == '+' || t[0] == '-') {
      assert t == [t[0]] + t[1..];
      assert DigitCount(t) == DigitCount(t[1..]);
    }
  }

  /** An empty or blank cell is not an integer. */
  lemma ParseIntRejectsBlank(s: string)
    requires forall i :: 0 <= i < |s| ==> IsSpace(s[i])
    ensures ParseInt(s) == None
  {
  }

  predicate IsLetter(c: char)
  {
    'a' <= c <= 'z' || 'A' <= c <= 'Z'
  }

  /** A cell with an ASCII letter in it is not an integer. */
  lemma ParseIntRejectsLetter(s: string, i: nat)
    requires i < |s| && IsLetter(s[i])
    ensures ParseInt(s) == None
  {
    var j := StripKeeps(s, i);
    var t := Strip(s);
    if |t| > 0 && (t[0] == '+' || t[0] == '-') {
      assert j > 0 && t[1..][j - 1] == s[i];
      NotDigitsIfLetter(t[1..], j - 1);
    } else {
      NotDigitsIfLetter(t, j);
    }
  }

  /** A character that is not white space survives stripping. */
  lemma StripKeeps(s: string, i: nat) returns (j: nat)
    requires i < |s| && !IsSpace(s[i])
    ensures j < |Strip(s)| && Strip(s)[j] == s[i]
  {
    var u := TrimStart(s);
    var k := |s| - |u|;
    j := i - k;
    assert u[j] == s[i];
  }

  lemma NotDigitsIfLetter(t: string, j: nat)
    requires j < |t| && IsLetter(t[j])
    ensures !WellFormedDigits(t)
  {
    assert !IsDigit(t[j]) && t[j] != '_';
  }
}
