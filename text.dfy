/** String helpers for the snapshot text: Python's `str()` of an integer and
    `"\n".join(...)`, each with the function that undoes it. */
module Text {

  datatype Option<T> = None | Some(value: T)

  /** The decimal digit character for `d`. */
  function DigitChar(d: nat): (c: char)
    requires d < 10
    ensures '0' <= c <= '9'
    ensures c as int - '0' as int == d
  {
    ('0' as int + d) as char
  }

  predicate IsDigits(s: string) {
    forall i :: 0 <= i < |s| ==> '0' <= s[i] <= '9'
  }

  /** Decimal rendering of a natural number, most significant digit first, no leading zeros. */
  function NatToString(n: nat): (s: string)
    ensures |s| > 0 && IsDigits(s)
    ensures |s| > 1 ==> s[0] != '0'
  {
    if n < 10 then [DigitChar(n)] else NatToString(n / 10) + [DigitChar(n % 10)]
  }

  /** Reads a string of decimal digits back as a number. */
  function ParseNat(s: string): nat
    requires IsDigits(s)
  {
    if s == [] then 0 else 10 * ParseNat(s[..|s| - 1]) + (s[|s| - 1] as int - '0' as int)
  }

  lemma {:induction false} ParseNatToString(n: nat)
    ensures ParseNat(NatToString(n)) == n
  {
    var s := NatToString(n);
    if n >= 10 {
      assert s[..|s| - 1] == NatToString(n / 10);
      ParseNatToString(n / 10);
    }
  }

  /** Python's `str(i)` for an int: a minus sign before the digits of `|i|` when negative. */
  function IntToString(i: int): (s: string)
    ensures |s| > 0
    ensures s[0] == '-' <==> i < 0
    ensures IsDigits(if i < 0 then s[1..] else s)
    ensures var digits := if i < 0 then s[1..] else s; |digits| > 0 && (|digits| > 1 ==> digits[0] != '0')
  {
    if i < 0 then "-" + NatToString(-i) else NatToString(i)
  }

  function ParseInt(s: string): int
    requires |s| > 0
    requires IsDigits(if s[0] == '-' then s[1..] else s)
  {
    if s[0] == '-' then -(ParseNat(s[1..]) as int) else ParseNat(s)
  }

  lemma ParseIntToString(i: int)
    ensures ParseInt(IntToString(i)) == i
  {
    if i < 0 {
      assert IntToString(i)[1..] == NatToString(-i);
      ParseNatToString(-i);
    } else {
      ParseNatToString(i);
    }
  }

  /** The number of decimal digits at the end of `s`. */
  function DigitSuffixLength(s: string): nat {
    if s != [] && '0' <= s[|s| - 1] <= '9' then DigitSuffixLength(s[..|s| - 1]) + 1 else 0
  }

  /** The counted characters are all digits. */
  lemma {:induction false} DigitSuffixIsDigits(s: string)
    ensures DigitSuffixLength(s) <= |s| && IsDigits(s[|s| - DigitSuffixLength(s)..])
  {
    if s != [] && '0' <= s[|s| - 1] <= '9' {
      var t := s[..|s| - 1];
      var k := DigitSuffixLength(t);
      DigitSuffixIsDigits(t);
      var u := s[|s| - (k + 1)..];
      forall j | 0 <= j < |u| ensures '0' <= u[j] <= '9' {
        if j < k {
          assert u[j] == t[|t| - k..][j];
        }
      }
    }
  }

  lemma {:induction false} DigitSuffixOf(a: string, d: string)
    requires IsDigits(d)
    requires a == [] || !('0' <= a[|a| - 1] <= '9')
    ensures DigitSuffixLength(a + d) == |d|
  {
    var s := a + d;
    if d != [] {
      assert s[|s| - 1] == d[|d| - 1];
      assert s[..|s| - 1] == a + d[..|d| - 1];
      DigitSuffixOf(a, d[..|d| - 1]);
    } else {
      assert s == a;
    }
  }

  /** `s` without `suffix`, when `s` ends in it. */
  function StripSuffix(s: string, suffix: string): (r: Option<string>)
    ensures r.Some? ==> s == r.value + suffix
  {
    if |s| >= |suffix| && s[|s| - |suffix|..] == suffix then
      assert s == s[..|s| - |suffix|] + suffix;
      Some(s[..|s| - |suffix|])
    else None
  }

  lemma StripSuffixOf(a: string, suffix: string)
    ensures StripSuffix(a + suffix, suffix) == Some(a)
  {
    var s := a + suffix;
    assert s[|s| - |suffix|..] == suffix && s[..|s| - |suffix|] == a;
  }

  /** The integer written at the very end of `s`, as Python's `str()` writes it, and what
      stands before it: the trailing digits, with no leading zero, negated when a minus sign
      stands right before them. */
  function SplitTrailingInt(s: string): Option<(string, int)> {
    var k := DigitSuffixLength(s);
    DigitSuffixIsDigits(s);
    SignedFrom(s[..|s| - k], s[|s| - k..])
  }

  /** The integer `digits` stand for, with the sign `rest` ends in, and what is left of `rest`;
      nothing when the digits are empty or not as `str()` writes them. */
  function SignedFrom(rest: string, digits: string): Option<(string, int)>
    requires IsDigits(digits)
  {
    if digits == [] || (|digits| > 1 && digits[0] == '0') then None
    else
      var n := ParseNat(digits);
      if rest != [] && rest[|rest| - 1] == '-' then
        if n == 0 then None else Some((rest[..|rest| - 1], -(n as int)))
      else Some((rest, n as int))
  }

  /** Behind a `before` that does not end in a digit, the trailing digits are exactly `digits`. */
  lemma SplitTrailingIntAt(before: string, digits: string)
    requires IsDigits(digits)
    requires before == [] || !('0' <= before[|before| - 1] <= '9')
    ensures SplitTrailingInt(before + digits) == SignedFrom(before, digits)
  {
    DigitSuffixOf(before, digits);
    var s := before + digits;
    assert s[|s| - |digits|..] == digits && s[..|s| - |digits|] == before;
  }

  /** An integer written after a prefix that ends in neither a digit nor a minus sign is read
      back, together with the prefix, from the end of the string. */
  lemma SplitTrailingIntOf(prefix: string, i: int)
    requires prefix == [] || !('0' <= prefix[|prefix| - 1] <= '9' || prefix[|prefix| - 1] == '-')
    ensures SplitTrailingInt(prefix + IntToString(i)) == Some((prefix, i))
  {
    if i < 0 {
      SplitNegativeOf(prefix, -i);
    } else {
      SplitNonNegativeOf(prefix, i);
    }
  }

  lemma SplitNegativeOf(prefix: string, n: nat)
    requires n > 0
    requires prefix == [] || !('0' <= prefix[|prefix| - 1] <= '9' || prefix[|prefix| - 1] == '-')
    ensures SplitTrailingInt(prefix + IntToString(-(n as int))) == Some((prefix, -(n as int)))
  {
    NegativeRendering(prefix, n);
    SplitTrailingIntAt(prefix + ['-'], NatToString(n));
    SignedNegative(prefix, n);
  }

  lemma SplitNonNegativeOf(prefix: string, n: nat)
    requires prefix == [] || !('0' <= prefix[|prefix| - 1] <= '9' || prefix[|prefix| - 1] == '-')
    ensures SplitTrailingInt(prefix + IntToString(n)) == Some((prefix, n as int))
  {
    assert IntToString(n) == NatToString(n);
    SplitTrailingIntAt(prefix, NatToString(n));
    SignedNonNegative(prefix, n);
  }

  lemma SignedNonNegative(prefix: string, n: nat)
    requires prefix == [] || prefix[|prefix| - 1] != '-'
    ensures SignedFrom(prefix, NatToString(n)) == Some((prefix, n as int))
  {
    ParseNatToString(n);
  }

  lemma SignedNegative(prefix: string, n: nat)
    requires n > 0
    ensures SignedFrom(prefix + ['-'], NatToString(n)) == Some((prefix, -(n as int)))
  {
    var before := prefix + ['-'];
    ParseNatToString(n);
    assert before[..|before| - 1] == prefix;
  }

  lemma NegativeRendering(prefix: string, n: nat)
    requires n > 0
    ensures prefix + IntToString(-(n as int)) == (prefix + ['-']) + NatToString(n)
  {
    var i := -(n as int);
    assert IntToString(i) == "-" + NatToString(n);
  }

  /** `[sep].join(parts)` for a one-character separator. When no part contains the
      separator and there is at least one part, splitting the result gives the parts back. */
  function Join(parts: seq<string>, sep: char): (s: string)
    ensures parts == [] ==> s == ""
    ensures |parts| > 0 && (forall k :: 0 <= k < |parts| ==> sep !in parts[k]) ==> Split(s, sep) == parts
  {
    if |parts| == 0 then ""
    else if |parts| == 1 then
      SplitWithoutSep(parts[0], sep);
      parts[0]
    else
      var rest := Join(parts[1..], sep);
      SplitAtFirstSep(parts[0], rest, sep);
      assert [parts[0]] + parts[1..] == parts;
      parts[0] + [sep] + rest
  }

  /** `s.split(sep)` for a one-character separator: the empty string splits into one empty part. */
  function Split(s: string, sep: char): (parts: seq<string>)
    ensures |parts| > 0
  {
    if s == [] then [""]
    else
      var rest := Split(s[1..], sep);
      if s[0] == sep then [""] + rest else [[s[0]] + rest[0]] + rest[1..]
  }

  lemma {:induction false} SplitWithoutSep(a: string, sep: char)
    ensures sep !in a ==> Split(a, sep) == [a]
  {
    if a != [] && sep !in a {
      SplitWithoutSep(a[1..], sep);
      assert [a[0]] + a[1..] == a;
    }
  }

  lemma {:induction false} SplitAtFirstSep(a: string, b: string, sep: char)
    ensures sep !in a ==> Split(a + [sep] + b, sep) == [a] + Split(b, sep)
  {
    var s := a + [sep] + b;
    if sep !in a {
      if a == [] {
        assert s[1..] == b;
      } else {
        assert s[1..] == a[1..] + [sep] + b;
        SplitAtFirstSep(a[1..], b, sep);
        assert [a[0]] + a[1..] == a;
      }
    }
  }
}
