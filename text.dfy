/** Character strings as the controller handles them: decimal digits,
    `Number.prototype.toString(10)`, `padStart(2, "0")`, `slice(-2)`,
    `split(sep)` and the relational `<` of two strings (which compares
    code units from the left). */
module Text {

  predicate IsDigit(c: char) { '0' <= c <= '9' }

  predicate IsDigits(s: string) { forall i :: 0 <= i < |s| ==> IsDigit(s[i]) }

  function DigitValue(c: char): (d: nat)
    requires IsDigit(c)
    ensures d < 10
  {
    c as int - '0' as int
  }

  function DigitChar(d: nat): (c: char)
    requires d < 10
    ensures IsDigit(c) && DigitValue(c) == d
  {
    ('0' as int + d) as char
  }

  /** The number a string of decimal digits denotes; the empty string denotes 0,
      as `Number("")` does. */
  function DigitsValue(s: string): nat
    requires IsDigits(s)
  {
    if |s| == 0 then 0 else 10 * DigitsValue(s[..|s| - 1]) + DigitValue(s[|s| - 1])
  }

  /** The value of short numerals, digit by digit. */
  lemma DigitsValueShort(s: string)
    requires IsDigits(s)
    ensures |s| == 1 ==> DigitsValue(s) == DigitValue(s[0])
    ensures |s| == 2 ==> DigitsValue(s) == 10 * DigitValue(s[0]) + DigitValue(s[1])
    ensures |s| == 4 ==> DigitsValue(s) == 1000 * DigitValue(s[0]) + 100 * DigitValue(s[1])
                                           + 10 * DigitValue(s[2]) + DigitValue(s[3])
  {
    if |s| == 2 {
      assert DigitsValue(s[..1]) == DigitValue(s[0]);
    } else if |s| == 4 {
      var p := s[..3];
      assert DigitsValue(p[..2]) == 10 * DigitValue(s[0]) + DigitValue(s[1]) by {
        assert DigitsValue(p[..2][..1]) == DigitValue(s[0]);
      }
    }
  }

  /** `n.toString(10)`: the canonical decimal numeral of n (no leading zero). */
  function NatToString(n: nat): (s: string)
    ensures IsDigits(s) && DigitsValue(s) == n
    ensures |s| >= 1 && (|s| == 1 || s[0] != '0')
  {
    if n < 10 then [DigitChar(n)]
    else
      var prefix := NatToString(n / 10);
      var s := prefix + [DigitChar(n % 10)];
      assert s[..|s| - 1] == prefix;
      s
  }

  lemma {:induction false} NatToStringLength(n: nat)
    ensures n < 10 ==> |NatToString(n)| == 1
    ensures 10 <= n < 100 ==> |NatToString(n)| == 2
    ensures 100 <= n < 1000 ==> |NatToString(n)| == 3
    ensures 1000 <= n < 10000 ==> |NatToString(n)| == 4
  {
    if n >= 10 { NatToStringLength(n / 10); }
  }

  /** `s.padStart(2, "0")`. */
  function PadStart2(s: string): (r: string)
    ensures |r| == if |s| < 2 then 2 else |s|
    ensures r[|r| - |s|..] == s
    ensures forall i :: 0 <= i < |r| - |s| ==> r[i] == '0'
  {
    if |s| == 0 then "00" else if |s| == 1 then "0" + s else s
  }

  /** Leading zeros added by padding do not change the number denoted. */
  lemma PadStart2Value(s: string)
    requires IsDigits(s)
    ensures IsDigits(PadStart2(s)) && DigitsValue(PadStart2(s)) == DigitsValue(s)
  {
    if |s| < 2 {
      LeadingZeroValue(PadStart2(s)[1..]);
      if |s| == 0 { LeadingZeroValue(""); }
    }
  }

  lemma {:induction false} LeadingZeroValue(s: string)
    requires IsDigits(s)
    ensures IsDigits("0" + s) && DigitsValue("0" + s) == DigitsValue(s)
  {
    if |s| > 0 {
      var p := s[..|s| - 1];
      LeadingZeroValue(p);
      assert ("0" + s)[..|s|] == "0" + p;
    }
  }

  /** The two-digit, zero-padded numeral of n < 100. */
  function TwoDigits(n: nat): (r: string)
    requires n < 100
    ensures |r| == 2 && IsDigits(r) && DigitsValue(r) == n
  {
    NatToStringLength(n);
    PadStart2Value(NatToString(n));
    PadStart2(NatToString(n))
  }

  /** `s.slice(-2)`: the last two characters, or all of s when it is shorter. */
  function LastTwo(s: string): (r: string)
    ensures |r| == if |s| < 2 then |s| else 2
    ensures r == s[|s| - |r|..]
  {
    if |s| < 2 then s else s[|s| - 2..]
  }

  /** `("00" + n).slice(-2)` is the zero-padded two-digit numeral when n < 100. */
  lemma LastTwoPadded(n: nat)
    requires n < 100
    ensures LastTwo("00" + NatToString(n)) == TwoDigits(n)
  {
    NatToStringLength(n);
  }

  /** `("00" + n).slice(-2)` is always two digits, whatever n is. */
  lemma LastTwoDigits(n: nat)
    ensures |LastTwo("00" + NatToString(n))| == 2 && IsDigits(LastTwo("00" + NatToString(n)))
  {
  }

  // ---------------------------------------------------------------------------
  // String comparison

  /** `a < b` on two JavaScript strings: lexicographic order, a proper prefix
      being smaller. */
  predicate LexLess(a: string, b: string)
    decreases |a|
  {
    if |a| == 0 then |b| > 0
    else if |b| == 0 then false
    else a[0] < b[0] || (a[0] == b[0] && LexLess(a[1..], b[1..]))
  }

  lemma {:induction false} LexLessIrreflexive(a: string)
    ensures !LexLess(a, a)
  {
    if |a| > 0 { LexLessIrreflexive(a[1..]); }
  }

  /** Between strings of equal length exactly one of <, == and > holds. */
  lemma {:induction false} LexLessTrichotomy(a: string, b: string)
    requires |a| == |b|
    ensures LexLess(a, b) || a == b || LexLess(b, a)
    ensures !(LexLess(a, b) && LexLess(b, a))
  {
    if |a| > 0 {
      LexLessTrichotomy(a[1..], b[1..]);
      if a[0] == b[0] && a[1..] == b[1..] {
        assert a == [a[0]] + a[1..] && b == [b[0]] + b[1..];
      }
    }
  }

  /** Comparing concatenations whose first parts have equal length compares
      the first parts, and the second parts only when the first are equal. */
  lemma {:induction false} LexLessConcat(a1: string, a2: string, b1: string, b2: string)
    requires |a1| == |b1|
    ensures LexLess(a1 + a2, b1 + b2) <==> LexLess(a1, b1) || (a1 == b1 && LexLess(a2, b2))
  {
    if |a1| > 0 {
      assert (a1 + a2)[1..] == a1[1..] + a2 && (b1 + b2)[1..] == b1[1..] + b2;
      LexLessConcat(a1[1..], a2, b1[1..], b2);
      if a1[0] == b1[0] && a1[1..] == b1[1..] {
        assert a1 == [a1[0]] + a1[1..] && b1 == [b1[0]] + b1[1..];
      }
    } else {
      assert a1 + a2 == a2 && b1 + b2 == b2;
    }
  }

  /** On digit strings of equal length, string order is numeric order, which is
      why zero-padding makes text comparisons of dates and times meaningful. */
  lemma {:induction false} LexLessDigits(a: string, b: string)
    requires IsDigits(a) && IsDigits(b) && |a| == |b|
    ensures LexLess(a, b) <==> DigitsValue(a) < DigitsValue(b)
    ensures a == b <==> DigitsValue(a) == DigitsValue(b)
    decreases |a|
  {
    if |a| > 0 {
      var n := |a| - 1;
      var pa, pb := a[..n], b[..n];
      LexLessDigits(pa, pb);
      LexLessDigits(pb, pa);
      assert a == pa + [a[n]] && b == pb + [b[n]];
      LexLessConcat(pa, [a[n]], pb, [b[n]]);
      LexLessTrichotomy(pa, pb);
      if pa == pb && a[n] == b[n] {
        assert a == b;
      }
    }
  }

  // ---------------------------------------------------------------------------
  // Splitting

  /** `s.split(sep)` for a one-character separator: the pieces between
      separators, always at least one (`"".split(":")` is `[""]`). */
  function Split(s: string, sep: char): (parts: seq<string>)
    ensures |parts| >= 1
    decreases |s|
  {
    if |s| == 0 then [""]
    else
      var rest := Split(s[1..], sep);
      if s[0] == sep then [""] + rest else [[s[0]] + rest[0]] + rest[1..]
  }

  /** `parts.join(sep)`. */
  function Join(parts: seq<string>, sep: char): string
    requires |parts| >= 1
    decreases |parts|
  {
    if |parts| == 1 then parts[0] else parts[0] + [sep] + Join(parts[1..], sep)
  }

  /** Splitting loses nothing: joining the pieces gives the string back, and no
      piece contains the separator. */
  lemma {:induction false} SplitJoin(s: string, sep: char)
    ensures Join(Split(s, sep), sep) == s
    ensures forall i :: 0 <= i < |Split(s, sep)| ==> sep !in Split(s, sep)[i]
  {
    if |s| > 0 {
      SplitJoin(s[1..], sep);
      var rest := Split(s[1..], sep);
      if s[0] != sep && |rest| > 1 {
        assert Split(s, sep)[1..] == rest[1..];
      }
      if s[0] == sep {
        assert Split(s, sep)[1..] == rest;
      }
    }
  }

  lemma {:induction false} SplitNoSeparator(a: string, sep: char)
    requires sep !in a
    ensures Split(a, sep) == [a]
  {
    if |a| > 0 {
      SplitNoSeparator(a[1..], sep);
      assert [a[0]] + a[1..] == a;
    }
  }

  /** The first piece ends at the first separator. */
  lemma {:induction false} SplitAtSeparator(a: string, sep: char, b: string)
    requires sep !in a
    ensures Split(a + [sep] + b, sep) == [a] + Split(b, sep)
  {
    if |a| == 0 {
      assert a + [sep] + b == [sep] + b;
      assert ([sep] + b)[1..] == b;
    } else {
      assert (a + [sep] + b)[1..] == a[1..] + [sep] + b;
      SplitAtSeparator(a[1..], sep, b);
      assert [a[0]] + a[1..] == a;
    }
  }
}
