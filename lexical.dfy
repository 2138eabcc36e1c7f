/** String order and decimal digits, as Python compares strings (`>=` on str) and as
    JavaScript sorts and prints them. Characters compare by code point. */
module Lexical {

  /** Lexicographic order on strings: Python's `a < b` on str. */
  predicate Less(a: string, b: string)
    decreases |a|
  {
    if |a| == 0 then |b| > 0
    else if |b| == 0 then false
    else a[0] < b[0] || (a[0] == b[0] && Less(a[1..], b[1..]))
  }

  /** Python's `a >= b` on str. */
  predicate AtOrAfter(a: string, b: string)
  {
    !Less(a, b)
  }

  lemma {:induction false} LessIrreflexive(a: string)
    ensures !Less(a, a)
  {
    if |a| > 0 {
      LessIrreflexive(a[1..]);
    }
  }

  lemma {:induction false} LessTransitive(a: string, b: string, c: string)
    requires Less(a, b) && Less(b, c)
    ensures Less(a, c)
  {
    if |a| > 0 && |b| > 0 && |c| > 0 && a[0] == b[0] && b[0] == c[0] {
      LessTransitive(a[1..], b[1..], c[1..]);
    }
  }

  lemma {:induction false} LessAsymmetric(a: string, b: string)
    ensures !(Less(a, b) && Less(b, a))
  {
    if |a| > 0 && |b| > 0 && a[0] == b[0] {
      LessAsymmetric(a[1..], b[1..]);
    }
  }

  lemma {:induction false} LessTotal(a: string, b: string)
    ensures a == b || Less(a, b) || Less(b, a)
  {
    if |a| > 0 && |b| > 0 && a[0] == b[0] {
      LessTotal(a[1..], b[1..]);
      assert a == [a[0]] + a[1..] && b == [b[0]] + b[1..];
    }
  }

  /** Comparing two strings whose first parts have equal length compares the first parts,
      and only on a tie the rest. */
  lemma {:induction false} LessConcat(a: string, b: string, c: string, d: string)
    requires |a| == |b|
    ensures Less(a + c, b + d) <==> Less(a, b) || (a == b && Less(c, d))
  {
    if |a| == 0 {
      assert a + c == c && b + d == d;
    } else {
      assert (a + c)[1..] == a[1..] + c;
      assert (b + d)[1..] == b[1..] + d;
      LessConcat(a[1..], b[1..], c, d);
      assert a == [a[0]] + a[1..] && b == [b[0]] + b[1..];
    }
  }

  predicate IsDigit(c: char)
  {
    '0' <= c <= '9'
  }

  predicate AllDigits(s: string)
  {
    forall i :: 0 <= i < |s| ==> IsDigit(s[i])
  }

  function DigitValue(c: char): nat
    requires IsDigit(c)
  {
    (c as int) - ('0' as int)
  }

  /** The number a string of decimal digits denotes. */
  function DecimalValue(s: string): nat
    requires AllDigits(s)
    decreases |s|
  {
    if |s| == 0 then 0 else 10 * DecimalValue(s[..|s| - 1]) + DigitValue(s[|s| - 1])
  }

  /** On digit strings of equal length, string order is numeric order. */
  lemma {:induction false} DecimalOrder(a: string, b: string)
    requires AllDigits(a) && AllDigits(b) && |a| == |b|
    ensures Less(a, b) <==> DecimalValue(a) < DecimalValue(b)
    ensures a == b <==> DecimalValue(a) == DecimalValue(b)
  {
    if |a| > 0 {
      var n := |a| - 1;
      var a', b' := a[..n], b[..n];
      DecimalOrder(a', b');
      assert a == a' + [a[n]] && b == b' + [b[n]];
      LessConcat(a', b', [a[n]], [b[n]]);
      assert [a[n]][1..] == [] && [b[n]][1..] == [];
      assert Less([a[n]], [b[n]]) <==> a[n] < b[n];
      assert a == b <==> a' == b' && a[n] == b[n];
    }
  }

  /** An ISO calendar date `YYYY-MM-DD`, the format the processor stamps rows with. */
  predicate IsIsoDate(s: string)
  {
    && |s| == 10 && s[4] == '-' && s[7] == '-'
    && AllDigits(s[..4]) && AllDigits(s[5..7]) && AllDigits(s[8..])
  }

  function Year(s: string): nat
    requires IsIsoDate(s)
  {
    DecimalValue(s[..4])
  }

  function Month(s: string): nat
    requires IsIsoDate(s)
  {
    DecimalValue(s[5..7])
  }

  function Day(s: string): nat
    requires IsIsoDate(s)
  {
    DecimalValue(s[8..])
  }

  /** Calendar order: by year, then month, then day. */
  predicate Before(a: string, b: string)
    requires IsIsoDate(a) && IsIsoDate(b)
  {
    || Year(a) < Year(b)
    || (Year(a) == Year(b) && Month(a) < Month(b))
    || (Year(a) == Year(b) && Month(a) == Month(b) && Day(a) < Day(b))
  }

  /** Why comparing the date stamps as strings is sound: on ISO dates, string order is
      calendar order. */
  lemma IsoDateOrder(a: string, b: string)
    requires IsIsoDate(a) && IsIsoDate(b)
    ensures Less(a, b) <==> Before(a, b)
    ensures AtOrAfter(a, b) <==> !Before(a, b)
  {
    assert a == a[..4] + (a[4..5] + (a[5..7] + (a[7..8] + a[8..])));
    assert b == b[..4] + (b[4..5] + (b[5..7] + (b[7..8] + b[8..])));
    assert a[4..5] == b[4..5] == "-" && a[7..8] == b[7..8] == "-";
    DecimalOrder(a[..4], b[..4]);
    DecimalOrder(a[5..7], b[5..7]);
    DecimalOrder(a[8..], b[8..]);
    LessConcat(a[..4], b[..4], a[4..5] + (a[5..7] + (a[7..8] + a[8..])), b[4..5] + (b[5..7] + (b[7..8] + b[8..])));
    LessConcat(a[4..5], b[4..5], a[5..7] + (a[7..8] + a[8..]), b[5..7] + (b[7..8] + b[8..]));
    LessConcat(a[5..7], b[5..7], a[7..8] + a[8..], b[7..8] + b[8..]);
    LessConcat(a[7..8], b[7..8], a[8..], b[8..]);
    LessIrreflexive("-");
  }

  function DigitChar(d: nat): (c: char)
    requires d < 10
    ensures IsDigit(c) && DigitValue(c) == d
  {
    ('0' as int + d) as char
  }

  /** The decimal numeral of n, as a JavaScript template literal prints a length. */
  function NatToString(n: nat): (s: string)
    ensures |s| > 0 && AllDigits(s) && DecimalValue(s) == n
    ensures s[0] == '0' <==> n == 0
    ensures n == 0 ==> s == "0"
    decreases n
  {
    if n < 10 then [DigitChar(n)]
    else
      var prefix := NatToString(n / 10);
      var s := prefix + [DigitChar(n % 10)];
      assert s[..|s| - 1] == prefix;
      s
  }
}
