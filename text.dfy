/** Option, used for conversions that can fail. */
module Wrappers {
  datatype Option<+T> = None | Some(value: T)
}

/**
 * The pieces of Python's text handling that the page tools rely on:
 * `str.split`, `int()` on strings made of digits and the separators of a
 * page selection, and the `'05'` integer format used in output file names.
 */
module Text {
  import opened Wrappers

  predicate IsDigit(c: char) {
    '0' <= c <= '9'
  }

  predicate AllDigits(s: string) {
    forall i | 0 <= i < |s| :: IsDigit(s[i])
  }

  function DigitValue(c: char): (d: nat)
    requires IsDigit(c)
    ensures d < 10
  {
    c as int - '0' as int
  }

  function DigitChar(d: nat): (c: char)
    requires d < 10
    ensures IsDigit(c) && DigitValue(c) == d
  {
    ('0' as int + d) as char
  }

  /** The value of a string of decimal digits; leading zeros are allowed. */
  function DecimalValue(s: string): nat
    requires AllDigits(s)
    decreases |s|
  {
    if |s| == 0 then 0 else DecimalValue(s[..|s| - 1]) * 10 + DigitValue(s[|s| - 1])
  }

  /** The decimal spelling of n, as `str(n)`: digits only, no leading zero. */
  function DecimalString(n: nat): (s: string)
    ensures |s| > 0 && AllDigits(s)
    ensures DecimalValue(s) == n
    ensures |s| > 1 ==> s[0] != '0'
    decreases n
  {
    if n < 10 then [DigitChar(n)]
    else
      var prefix := DecimalString(n / 10);
      var s := prefix + [DigitChar(n % 10)];
      assert s[..|s| - 1] == prefix;
      s
  }

  /**
   * `int(s)` for a string over digits, ',', '|' and '-': a non-empty run of
   * digits is read in decimal, one '-' followed by such a run is read as
   * its negation, and every other such string makes `int` raise ValueError.
   */
  function ParseInt(s: string): Option<int> {
    if |s| > 0 && AllDigits(s) then Some(DecimalValue(s))
    else if NegativeNumeral(s) then Some(-(DecimalValue(s[1..]) as int))
    else None
  }

  /** One '-' followed by a non-empty run of digits. */
  predicate NegativeNumeral(s: string) {
    |s| > 1 && s[0] == '-' && forall i | 1 <= i < |s| :: IsDigit(s[i])
  }

  /** A string that does not start with '-' reads, when it reads at all, as a non-negative number. */
  lemma UnsignedParse(s: string)
    requires |s| == 0 || s[0] != '-'
    ensures ParseInt(s).Some? ==> ParseInt(s).value >= 0
  {
  }

  /** A string holding a character that is neither a digit nor '-' is not a number. */
  lemma NotANumber(s: string, c: char)
    requires c in s && !IsDigit(c) && c != '-'
    ensures ParseInt(s).None?
  {
    var i :| 0 <= i < |s| && s[i] == c;
    assert !AllDigits(s);
    if |s| > 1 && s[0] == '-' {
      assert i > 0 && s[1..][i - 1] == c;
    }
  }

  /** A '-' anywhere but in front, as in "5-10", makes the string not a number. */
  lemma InnerHyphen(s: string, i: int)
    requires 0 < i < |s| && s[i] == '-'
    ensures ParseInt(s).None?
  {
    assert !IsDigit(s[i]);
  }

  function Zeros(k: nat): (z: string)
    ensures |z| == k && forall i | 0 <= i < k :: z[i] == '0'
  {
    if k == 0 then [] else Zeros(k - 1) + ['0']
  }

  /** `f'{n:0{width}}'`: n in decimal, left-padded with zeros to at least `width` characters. */
  function ZeroPadded(n: nat, width: nat): string {
    var d := DecimalString(n);
    if |d| < width then Zeros(width - |d|) + d else d
  }

  lemma {:induction false} LeadingZerosIgnored(k: nat, s: string)
    requires AllDigits(s)
    ensures AllDigits(Zeros(k) + s)
    ensures DecimalValue(Zeros(k) + s) == DecimalValue(s)
    decreases |s|
  {
    var z := Zeros(k) + s;
    if |s| == 0 {
      assert z == Zeros(k);
      ZerosValue(k);
    } else {
      LeadingZerosIgnored(k, s[..|s| - 1]);
      assert z[..|z| - 1] == Zeros(k) + s[..|s| - 1];
    }
  }

  lemma {:induction false} ZerosValue(k: nat)
    ensures DecimalValue(Zeros(k)) == 0
  {
    if k > 0 {
      ZerosValue(k - 1);
      var z := Zeros(k);
      assert z == Zeros(k - 1) + ['0'];
      assert z[..k - 1] == Zeros(k - 1);
      assert DigitValue(z[k - 1]) == 0;
      assert DecimalValue(z) == DecimalValue(z[..k - 1]) * 10 + 0;
    }
  }

  /**
   * The padded ordinal is digits only, exactly `width` characters long or the
   * length of the plain spelling when that is longer, and reads back as the
   * ordinal: file names keep the page number.
   */
  lemma ZeroPaddedRoundTrip(n: nat, width: nat)
    ensures AllDigits(ZeroPadded(n, width))
    ensures |ZeroPadded(n, width)| == if |DecimalString(n)| < width then width else |DecimalString(n)|
    ensures ParseInt(ZeroPadded(n, width)) == Some(n)
  {
    var d := DecimalString(n);
    if |d| < width {
      LeadingZerosIgnored(width - |d|, d);
    }
  }

  /** Page 1 is spelled "00001". */
  lemma ZeroPaddedOne()
    ensures ZeroPadded(1, 5) == "00001"
  {
    assert DecimalString(1) == "1";
    assert Zeros(4) == "0000";
  }

  lemma ZeroPaddedInjective(a: nat, b: nat, width: nat)
    requires ZeroPadded(a, width) == ZeroPadded(b, width)
    ensures a == b
  {
    ZeroPaddedRoundTrip(a, width);
    ZeroPaddedRoundTrip(b, width);
  }

  /** The inverse of `Split`: the fields with one separator between neighbours. */
  function Join(fields: seq<string>, sep: char): string
    requires |fields| > 0
  {
    if |fields| == 1 then fields[0] else fields[0] + [sep] + Join(fields[1..], sep)
  }

  /** `s.split(sep)`: the maximal separator-free pieces of s, in order; never empty. */
  function Split(s: string, sep: char): (fields: seq<string>)
    ensures |fields| > 0
    ensures forall f | f in fields :: sep !in f
    ensures Join(fields, sep) == s
    decreases |s|
  {
    if |s| == 0 then [""]
    else
      var rest := Split(s[1..], sep);
      if s[0] == sep then
        assert [sep] + Join(rest, sep) == s;
        [""] + rest
      else
        var fields := [[s[0]] + rest[0]] + rest[1..];
        assert fields[1..] == rest[1..];
        assert Join(fields, sep) == s by {
          if |rest| > 1 {
            assert Join(rest, sep) == rest[0] + [sep] + Join(rest[1..], sep);
          }
        }
        fields
  }

  lemma {:induction false} SplitWithoutSeparator(s: string, sep: char)
    requires sep !in s
    ensures Split(s, sep) == [s]
    decreases |s|
  {
    if |s| > 0 {
      SplitWithoutSeparator(s[1..], sep);
      assert [s[0]] + s[1..] == s;
    }
  }

  /** Splitting at a separator and then splitting the two halves gives the same fields. */
  lemma {:induction false} SplitAppend(a: string, b: string, sep: char)
    ensures Split(a + [sep] + b, sep) == Split(a, sep) + Split(b, sep)
    decreases |a|
  {
    var s := a + [sep] + b;
    if |a| == 0 {
      assert s[1..] == b;
    } else {
      assert s[1..] == a[1..] + [sep] + b;
      SplitAppend(a[1..], b, sep);
    }
  }

  /** A string that starts with the separator has an empty first field. */
  lemma SplitLeadingSeparator(s: string, sep: char)
    requires |s| > 0 && s[0] == sep
    ensures Split(s, sep)[0] == ""
  {
  }

  lemma DigitsHoldNoSeparator(s: string, sep: char)
    requires AllDigits(s) && !IsDigit(sep)
    ensures sep !in s
  {
    forall i | 0 <= i < |s| ensures s[i] != sep {
      assert IsDigit(s[i]);
    }
  }

  /** Splitting the join of separator-free fields gives the fields back. */
  lemma {:induction false} SplitJoin(fields: seq<string>, sep: char)
    requires |fields| > 0
    requires forall k | 0 <= k < |fields| :: sep !in fields[k]
    ensures Split(Join(fields, sep), sep) == fields
    decreases |fields|
  {
    SplitWithoutSeparator(fields[0], sep);
    if |fields| > 1 {
      SplitJoin(fields[1..], sep);
      SplitAppend(fields[0], Join(fields[1..], sep), sep);
      assert [fields[0]] + fields[1..] == fields;
    }
  }

  /** A character other than the separator that occurs in the joined string occurs in some field. */
  lemma {:induction false} FieldHolds(fields: seq<string>, sep: char, c: char)
    requires |fields| > 0
    requires c != sep && c in Join(fields, sep)
    ensures exists k | 0 <= k < |fields| :: c in fields[k]
    decreases |fields|
  {
    if |fields| > 1 && c !in fields[0] {
      FieldHolds(fields[1..], sep, c);
      var k :| 0 <= k < |fields| - 1 && c in fields[1..][k];
      assert c in fields[k + 1];
    }
  }
}
