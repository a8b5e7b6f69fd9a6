/**
 * The few pieces of the C++ standard library that the codecs and the facade
 * use on text: std::to_string on integers, std::stoi / std::atoi, and
 * std::string::find / substr, plus the "C"-locale std::tolower.
 */
module Text {
  import opened Wrappers

  /** The range of a 32-bit C++ `int`. */
  const INT_MIN: int := -0x8000_0000
  const INT_MAX: int := 0x7FFF_FFFF

  type Int32 = x: int | INT_MIN <= x <= INT_MAX

  /** The exceptions std::stoi raises. */
  datatype ParseError = InvalidArgument | OutOfRange

  predicate IsDigit(c: char) {
    '0' <= c <= '9'
  }

  predicate AllDigits(s: string) {
    forall i :: 0 <= i < |s| ==> IsDigit(s[i])
  }

  /** isspace in the "C" locale. */
  predicate IsSpace(c: char) {
    c == ' ' || c == '\t' || c == '\n' || c == '\r' || c as int == 0x0C || c as int == 0x0B
  }

  function DigitChar(d: nat): (c: char)
    requires d < 10
    ensures IsDigit(c)
  {
    ('0' as int + d) as char
  }

  function DigitValue(c: char): (d: nat)
    requires IsDigit(c)
    ensures d < 10
  {
    c as int - '0' as int
  }

  /** Decimal text of a natural number, without leading zeros. */
  function NatToString(n: nat): (s: string)
    ensures |s| > 0 && AllDigits(s)
    ensures s[0] == '0' ==> n == 0
  {
    if n < 10 then [DigitChar(n)] else NatToString(n / 10) + [DigitChar(n % 10)]
  }

  /** std::to_string on a signed integer (and operator<< on an ostream). */
  function IntToString(n: int): (s: string)
    ensures |s| > 0 && (n < 0 <==> s[0] == '-')
    ensures n >= 0 ==> AllDigits(s)
    ensures n < 0 ==> AllDigits(s[1..])
  {
    if n < 0 then "-" + NatToString(-n) else NatToString(n)
  }

  /** The value of a string of decimal digits. */
  function DigitsValue(s: string): nat
    requires AllDigits(s)
  {
    if s == [] then 0 else DigitsValue(s[..|s| - 1]) * 10 + DigitValue(s[|s| - 1])
  }

  /** The longest prefix of `s` made of decimal digits. */
  function DigitPrefix(s: string): (d: string)
    ensures d <= s && AllDigits(d)
    ensures |d| < |s| ==> !IsDigit(s[|d|])
  {
    if s != [] && IsDigit(s[0]) then [s[0]] + DigitPrefix(s[1..]) else []
  }

  function SkipSpace(s: string): (t: string)
    ensures |t| <= |s| && t == s[|s| - |t|..]
    ensures t != [] ==> !IsSpace(t[0])
  {
    if s != [] && IsSpace(s[0]) then SkipSpace(s[1..]) else s
  }

  /**
   * The integer that strtol-style parsing reads at the start of `s`: leading
   * white space, an optional sign, then the longest run of digits. None when
   * there is no digit to read.
   */
  function LeadingInt(s: string): Option<int> {
    var t := SkipSpace(s);
    if t != [] && (t[0] == '-' || t[0] == '+') then
      var d := DigitPrefix(t[1..]);
      if d == [] then None
      else if t[0] == '-' then Some(-(DigitsValue(d) as int))
      else Some(DigitsValue(d))
    else
      var d := DigitPrefix(t);
      if d == [] then None else Some(DigitsValue(d))
  }

  /** std::stoi: the leading integer, or the exception it raises. */
  function Stoi(s: string): Result<Int32, ParseError> {
    match LeadingInt(s)
    case None => Failure(InvalidArgument)
    case Some(v) => if INT_MIN <= v <= INT_MAX then Success(v) else Failure(OutOfRange)
  }

  /**
   * std::atoi: the leading integer, 0 when there is none. Values outside the
   * range of int are undefined behaviour in C++; the model returns them as read.
   */
  function Atoi(s: string): int {
    match LeadingInt(s)
    case None => 0
    case Some(v) => v
  }

  /** `pat` occurs in `s` at position `i`. */
  predicate OccursAt(s: string, pat: string, i: nat) {
    i + |pat| <= |s| && s[i..i + |pat|] == pat
  }

  /** `suffix` is the tail of `s`. */
  predicate EndsWith(s: string, suffix: string) {
    |suffix| <= |s| && s[|s| - |suffix|..] == suffix
  }

  /** std::string::find(pat, from); None stands for npos. */
  function FindFrom(s: string, pat: string, from: nat): (r: Option<nat>)
    decreases |s| - from
    ensures r.Some? ==> from <= r.value && OccursAt(s, pat, r.value)
    ensures r.Some? ==> forall j :: from <= j < r.value ==> !OccursAt(s, pat, j)
    ensures r.None? ==> forall j :: from <= j ==> !OccursAt(s, pat, j)
  {
    if from + |pat| > |s| then None
    else if s[from..from + |pat|] == pat then Some(from)
    else FindFrom(s, pat, from + 1)
  }

  /** std::string::substr(pos): out_of_range (None) when pos > size(). */
  function SubstrFrom(s: string, pos: nat): (r: Option<string>)
    ensures r.Some? <==> pos <= |s|
    ensures r.Some? ==> s == s[..pos] + r.value
  {
    if pos <= |s| then Some(s[pos..]) else None
  }

  /**
   * std::string::substr(pos, end - pos) where `end` is the result of a find
   * at or after pos: npos (None) reads to the end of the string.
   */
  function SubstrUntil(s: string, pos: nat, end: Option<nat>): (r: Option<string>)
    requires end.Some? ==> pos <= end.value
    ensures r.Some? <==> pos <= |s|
  {
    if pos > |s| then None
    else if end.Some? && end.value <= |s| then Some(s[pos..end.value])
    else Some(s[pos..])
  }

  /** std::tolower in the "C" locale. */
  function ToLower(c: char): (l: char)
    ensures !('A' <= l <= 'Z')
    ensures !('A' <= c <= 'Z') ==> l == c
  {
    if 'A' <= c <= 'Z' then (c as int - 'A' as int + 'a' as int) as char else c
  }

  /** The two strings have the same length and agree ignoring ASCII case. */
  predicate EqualIgnoringCase(a: string, b: string) {
    |a| == |b| && forall i :: 0 <= i < |a| ==> ToLower(a[i]) == ToLower(b[i])
  }

  // ---------------------------------------------------------------------
  // Round trips between the printer and the parsers

  lemma {:induction false} DigitsValueOfNatToString(n: nat)
    ensures DigitsValue(NatToString(n)) == n
  {
    var s := NatToString(n);
    if n >= 10 {
      var h := NatToString(n / 10);
      assert s == h + [DigitChar(n % 10)];
      assert s[..|s| - 1] == h;
      DigitsValueOfNatToString(n / 10);
    }
  }

  lemma {:induction false} DigitPrefixOfDigits(s: string)
    requires AllDigits(s)
    ensures DigitPrefix(s) == s
  {
    if s != [] {
      DigitPrefixOfDigits(s[1..]);
    }
  }

  lemma LeadingIntOfNatToString(n: nat)
    ensures LeadingInt(NatToString(n)) == Some(n)
  {
    var s := NatToString(n);
    assert SkipSpace(s) == s by { assert !IsSpace(s[0]); }
    assert s[0] != '-' && s[0] != '+';
    DigitPrefixOfDigits(s);
    DigitsValueOfNatToString(n);
  }

  /** std::stoi and std::atoi read back exactly what std::to_string printed. */
  lemma LeadingIntOfIntToString(n: int)
    ensures LeadingInt(IntToString(n)) == Some(n)
  {
    if n < 0 {
      var m: nat := -n;
      LeadingIntOfNegative(m);
      assert IntToString(n) == "-" + NatToString(m);
    } else {
      LeadingIntOfNatToString(n);
    }
  }

  lemma LeadingIntOfNegative(m: nat)
    requires m > 0
    ensures LeadingInt("-" + NatToString(m)) == Some(-(m as int))
  {
    var d := NatToString(m);
    var s := "-" + d;
    assert s[0] == '-' && !IsSpace(s[0]);
    assert SkipSpace(s) == s;
    assert s[1..] == d;
    DigitPrefixOfDigits(d);
    assert DigitPrefix(s[1..]) == d;
    DigitsValueOfNatToString(m);
  }

  lemma StoiOfIntToString(n: Int32)
    ensures Stoi(IntToString(n)) == Success(n)
  {
    LeadingIntOfIntToString(n);
  }

  lemma AtoiOfIntToString(n: int)
    ensures Atoi(IntToString(n)) == n
  {
    LeadingIntOfIntToString(n);
  }

  /** Distinct integers print differently. */
  lemma IntToStringInjective(a: int, b: int)
    requires IntToString(a) == IntToString(b)
    ensures a == b
  {
    LeadingIntOfIntToString(a);
    LeadingIntOfIntToString(b);
  }

  /** The text of an integer holds only digits and a leading minus sign. */
  lemma NoOtherCharInIntToString(n: int, c: char)
    requires c != '-' && !IsDigit(c)
    ensures c !in IntToString(n)
  {
    var s := IntToString(n);
    forall i | 0 <= i < |s|
      ensures s[i] != c
    {
      if n < 0 && i > 0 {
        assert s[i] == s[1..][i - 1];
      }
    }
  }

  /** find(pat, from) returns the first position at or after `from` where `pat` occurs. */
  lemma FindFromFirst(s: string, pat: string, from: nat, k: nat)
    requires from <= k && OccursAt(s, pat, k)
    requires forall j :: from <= j < k ==> !OccursAt(s, pat, j)
    ensures FindFrom(s, pat, from) == Some(k)
  {
  }

  /**
   * The first occurrence of `pat` in `a + pat + b` is right after `a` when some
   * character `pat[t]` appears neither in `a` nor earlier in `pat`.
   */
  lemma FindAfterPrefix(a: string, pat: string, b: string, t: nat)
    requires t < |pat| && pat[t] !in a && pat[t] !in pat[..t]
    ensures FindFrom(a + pat + b, pat, 0) == Some(|a|)
  {
    var s := a + pat + b;
    assert s[|a|..|a| + |pat|] == pat;
    forall j | 0 <= j < |a|
      ensures !OccursAt(s, pat, j)
    {
      if j + t < |a| {
        assert s[j + t] == a[j + t];
      } else {
        assert s[j + t] == pat[j + t - |a|];
        assert pat[..t][j + t - |a|] == pat[j + t - |a|];
      }
      if j + |pat| <= |s| {
        assert s[j..j + |pat|][t] == s[j + t];
      }
    }
    FindFromFirst(s, pat, 0, |a|);
  }

  /** The first occurrence of a character `c` absent from `a` in `a + [c] + b`. */
  lemma FindCharAfter(a: string, c: char, b: string, from: nat)
    requires from <= |a| && c !in a[from..]
    ensures FindFrom(a + [c] + b, [c], from) == Some(|a|)
  {
    var s := a + [c] + b;
    assert s[|a|..|a| + 1] == [c];
    forall j | from <= j < |a|
      ensures !OccursAt(s, [c], j)
    {
      assert s[j] == a[j] == a[from..][j - from];
      assert s[j..j + 1][0] == s[j];
    }
    FindFromFirst(s, [c], from, |a|);
  }
}
