/**
 The string operations the scanner relies on: Python's `str(n)` and `int(s)`
 on non-negative decimal numerals, `s.split(sep)` for a one-character
 separator and `sep.join(parts)`.
 */
module Text {

  predicate IsDigit(c: char)
  {
    '0' <= c <= '9'
  }

  predicate IsDigits(s: string)
  {
    forall i :: 0 <= i < |s| ==> IsDigit(s[i])
  }

  /** A string Python's `int()` reads as a non-negative number (leading zeros allowed). */
  predicate IsNumeral(s: string)
  {
    |s| > 0 && IsDigits(s)
  }

  /** A numeral as Python's `str()` writes it: no leading zero except in "0". */
  predicate IsCanonicalNumeral(s: string)
  {
    IsNumeral(s) && (s[0] == '0' ==> |s| == 1)
  }

  function DigitValue(c: char): (d: nat)
    requires IsDigit(c)
    ensures d < 10
  {
    (c as int - '0' as int) as nat
  }

  function DigitChar(d: nat): (c: char)
    requires d < 10
    ensures IsDigit(c) && DigitValue(c) == d
  {
    (d + '0' as int) as char
  }

  /** Python's `int(s)` on a string of decimal digits. */
  function NumeralValue(s: string): nat
    requires IsDigits(s)
  {
    if |s| == 0 then 0 else 10 * NumeralValue(s[..|s| - 1]) + DigitValue(s[|s| - 1])
  }

  /** Python's `str(n)` on a non-negative integer. */
  function Decimal(n: nat): (s: string)
    ensures IsCanonicalNumeral(s)
    ensures NumeralValue(s) == n
  {
    if n < 10 then [DigitChar(n)]
    else
      var t := Decimal(n / 10);
      var s := t + [DigitChar(n % 10)];
      assert s[..|s| - 1] == t;
      s
  }

  /** Only the numeral "0" (and "00", ...) has value zero. */
  lemma {:induction false} ZeroValueAllZeros(s: string)
    requires IsDigits(s)
    ensures NumeralValue(s) == 0 <==> forall i :: 0 <= i < |s| ==> s[i] == '0'
  {
    if |s| > 0 {
      var t := s[..|s| - 1];
      ZeroValueAllZeros(t);
      assert forall i :: 0 <= i < |t| ==> s[i] == t[i];
    }
  }

  /** Printing what was read gives back a canonical numeral. */
  lemma {:induction false} DecimalOfNumeralValue(s: string)
    requires IsCanonicalNumeral(s)
    ensures Decimal(NumeralValue(s)) == s
  {
    if |s| > 1 {
      var t, c := s[..|s| - 1], s[|s| - 1];
      assert s[0] == t[0] && t[0] != '0';
      ZeroValueAllZeros(t);
      DecimalOfNumeralValue(t);
      DecimalStep(NumeralValue(t), DigitValue(c));
      assert s == t + [c];
    }
  }

  /** Appending a digit to a positive number appends its character to the numeral. */
  lemma DecimalStep(m: nat, d: nat)
    requires m > 0 && d < 10
    ensures Decimal(10 * m + d) == Decimal(m) + [DigitChar(d)]
  {
    var n := 10 * m + d;
    assert n / 10 == m && n % 10 == d;
  }

  /**
   Python's `s.split(sep)` for a one-character separator: the maximal runs
   between separators, so k separators give k + 1 parts and "" gives [""].
   */
  function Split(s: string, sep: char): (parts: seq<string>)
    ensures |parts| >= 1
    ensures forall i :: 0 <= i < |parts| ==> sep !in parts[i]
  {
    if |s| == 0 then [""]
    else
      var rest := Split(s[1..], sep);
      if s[0] == sep then [""] + rest
      else [[s[0]] + rest[0]] + rest[1..]
  }

  /** How many times c occurs in s. */
  function Occurrences(s: string, c: char): nat
  {
    if |s| == 0 then 0 else (if s[0] == c then 1 else 0) + Occurrences(s[1..], c)
  }

  /** k separators give k + 1 parts. */
  lemma {:induction false} SplitCount(s: string, sep: char)
    ensures |Split(s, sep)| == Occurrences(s, sep) + 1
  {
    if |s| > 0 {
      SplitCount(s[1..], sep);
    }
  }

  /** Python's `sep.join(parts)`. */
  function Join(parts: seq<string>, sep: string): string
  {
    if |parts| == 0 then ""
    else if |parts| == 1 then parts[0]
    else parts[0] + sep + Join(parts[1..], sep)
  }

  /** A string without the separator is a single part. */
  lemma {:induction false} SplitWithoutSep(p: string, sep: char)
    requires sep !in p
    ensures Split(p, sep) == [p]
  {
    if |p| > 0 {
      SplitWithoutSep(p[1..], sep);
      assert [p[0]] + p[1..] == p;
    }
  }

  /** Splitting at the first separator peels off the first part. */
  lemma {:induction false} SplitAtSep(p: string, sep: char, s: string)
    requires sep !in p
    ensures Split(p + [sep] + s, sep) == [p] + Split(s, sep)
  {
    if |p| == 0 {
      assert p + [sep] + s == [sep] + s;
      assert ([sep] + s)[1..] == s;
    } else {
      var t := p + [sep] + s;
      SplitAtSep(p[1..], sep, s);
      assert t[1..] == p[1..] + [sep] + s;
      var rest := Split(t[1..], sep);
      assert rest[0] == p[1..] && rest[1..] == Split(s, sep);
      assert t[0] == p[0] && p[0] != sep;
      assert [p[0]] + p[1..] == p;
    }
  }

  /** Splitting a join of separator-free parts recovers the parts. */
  lemma {:induction false} SplitJoin(parts: seq<string>, sep: char)
    requires |parts| >= 1
    requires forall i :: 0 <= i < |parts| ==> sep !in parts[i]
    ensures Split(Join(parts, [sep]), sep) == parts
  {
    if |parts| == 1 {
      SplitWithoutSep(parts[0], sep);
    } else {
      SplitJoin(parts[1..], sep);
      SplitAtSep(parts[0], sep, Join(parts[1..], [sep]));
      assert [parts[0]] + parts[1..] == parts;
    }
  }

  /** Joining the parts of a split with the separator recovers the string. */
  lemma {:induction false} JoinSplit(s: string, sep: char)
    ensures Join(Split(s, sep), [sep]) == s
  {
    if |s| > 0 {
      var rest := Split(s[1..], sep);
      JoinSplit(s[1..], sep);
      assert [s[0]] + s[1..] == s;
      if s[0] != sep {
        var head := [s[0]] + rest[0];
        if |rest| == 1 {
          assert Split(s, sep) == [head];
        } else {
          assert Split(s, sep)[1..] == rest[1..];
          assert Join(rest, [sep]) == rest[0] + [sep] + Join(rest[1..], [sep]);
        }
      }
    }
  }

  /** A character in neither the parts nor the separator is not in their join. */
  lemma {:induction false} NotInJoin(parts: seq<string>, sep: string, c: char)
    requires c !in sep
    requires forall i :: 0 <= i < |parts| ==> c !in parts[i]
    ensures c !in Join(parts, sep)
  {
    if |parts| > 1 {
      NotInJoin(parts[1..], sep, c);
    }
  }
}
