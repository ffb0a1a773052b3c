/**
 * Code-point lexicographic order on strings: the order both sort criteria of
 * the task store reduce to (state labels, and ISO calendar dates).
 */
module Lexicographic {

  /** `a` sorts strictly before `b`: a proper prefix, or smaller at the first difference. */
  predicate Less(a: string, b: string)
    decreases |a|
  {
    |b| > 0 && (|a| == 0 || a[0] < b[0] || (a[0] == b[0] && Less(a[1..], b[1..])))
  }

  lemma {:induction false} Irreflexive(a: string)
    ensures !Less(a, a)
    decreases |a|
  {
    if |a| > 0 {
      Irreflexive(a[1..]);
    }
  }

  lemma {:induction false} Transitive(a: string, b: string, c: string)
    requires Less(a, b) && Less(b, c)
    ensures Less(a, c)
    decreases |a|
  {
    if |a| > 0 && a[0] == b[0] && b[0] == c[0] {
      Transitive(a[1..], b[1..], c[1..]);
    }
  }

  /** Any two strings are ordered one way or the other, or are equal. */
  lemma {:induction false} Trichotomy(a: string, b: string)
    ensures Less(a, b) || a == b || Less(b, a)
    decreases |a|
  {
    if |a| > 0 && |b| > 0 && a[0] == b[0] {
      Trichotomy(a[1..], b[1..]);
      assert a == [a[0]] + a[1..];
      assert b == [b[0]] + b[1..];
    }
  }

  lemma Asymmetric(a: string, b: string)
    ensures !(Less(a, b) && Less(b, a))
  {
    if Less(a, b) && Less(b, a) {
      Transitive(a, b, a);
      Irreflexive(a);
    }
  }

  /** "Not after" is transitive: `a <= b` and `b <= c` give `a <= c`. */
  lemma NotLessTransitive(a: string, b: string, c: string)
    requires !Less(b, a) && !Less(c, b)
    ensures !Less(c, a)
  {
    Trichotomy(a, b);
    if Less(c, a) && Less(a, b) {
      Transitive(c, a, b);
    }
  }

  /**
   * Comparing two concatenations whose first parts have equal length compares
   * the first parts, and only when they are equal the second parts.
   */
  lemma {:induction false} LessAppend(a: string, b: string, c: string, d: string)
    requires |a| == |c|
    ensures Less(a + b, c + d) <==> Less(a, c) || (a == c && Less(b, d))
    decreases |a|
  {
    if |a| == 0 {
      assert a + b == b && c + d == d;
    } else {
      assert (a + b)[1..] == a[1..] + b;
      assert (c + d)[1..] == c[1..] + d;
      LessAppend(a[1..], b, c[1..], d);
      assert a == [a[0]] + a[1..];
      assert c == [c[0]] + c[1..];
    }
  }
}

/**
 * Deadlines. The date field of the form yields the empty string or a date
 * written YYYY-MM-DD (years of four digits), which the deadline sort parses.
 */
module Dates {
  import opened Lexicographic

  predicate IsDigit(c: char)
  {
    '0' <= c <= '9'
  }

  predicate AllDigits(s: string)
  {
    forall i :: 0 <= i < |s| ==> IsDigit(s[i])
  }

  function DigitValue(c: char): (r: nat)
    requires IsDigit(c)
    ensures r < 10
  {
    (c as int) - ('0' as int)
  }

  function Pow10(n: nat): (r: nat)
    ensures r >= 1
  {
    if n == 0 then 1 else 10 * Pow10(n - 1)
  }

  /** A lower digit in the same position outweighs whatever follows it. */
  lemma {:induction false} DigitOutweighs(d: nat, r: nat, e: nat, p: nat)
    requires d < e && r < p
    ensures d * p + r < e * p
    decreases e - d
  {
    if d + 1 == e {
      assert e * p == d * p + p;
    } else {
      DigitOutweighs(d + 1, 0, e, p);
      assert (d + 1) * p == d * p + p;
    }
  }

  /** The number a string of decimal digits denotes, most significant digit first. */
  function Decimal(s: string): (r: nat)
    requires AllDigits(s)
    ensures r < Pow10(|s|)
    decreases |s|
  {
    if s == [] then 0
    else
      var rest := Decimal(s[1..]);
      var d := DigitValue(s[0]);
      DigitOutweighs(d, rest, 10, Pow10(|s| - 1));
      d * Pow10(|s| - 1) + rest
  }

  /** Positional numbers compare by their leading digit first, then by the rest. */
  lemma LeadingDigitOrder(da: nat, ra: nat, db: nat, rb: nat, p: nat)
    requires ra < p && rb < p
    ensures da * p + ra < db * p + rb <==> da < db || (da == db && ra < rb)
  {
    if da < db {
      DigitOutweighs(da, ra, db, p);
    } else if db < da {
      DigitOutweighs(db, rb, da, p);
    }
  }

  /** For digit strings of one length, string order is numeric order. */
  lemma {:induction false} DecimalOrder(a: string, b: string)
    requires AllDigits(a) && AllDigits(b) && |a| == |b|
    ensures Less(a, b) <==> Decimal(a) < Decimal(b)
    decreases |a|
  {
    if |a| > 0 {
      DecimalOrder(a[1..], b[1..]);
      LeadingDigitOrder(DigitValue(a[0]), Decimal(a[1..]), DigitValue(b[0]), Decimal(b[1..]), Pow10(|a| - 1));
      assert a[0] < b[0] <==> DigitValue(a[0]) < DigitValue(b[0]);
    }
  }

  /** For digit strings of one length, equal numbers mean equal strings. */
  lemma DecimalInjective(a: string, b: string)
    requires AllDigits(a) && AllDigits(b) && |a| == |b|
    ensures a == b <==> Decimal(a) == Decimal(b)
  {
    Trichotomy(a, b);
    DecimalOrder(a, b);
    DecimalOrder(b, a);
  }

  /** YYYY-MM-DD: four digits, a dash, two digits, a dash, two digits. */
  predicate IsDateFormat(s: string)
  {
    |s| == 10 && s[4] == '-' && s[7] == '-'
    && AllDigits(s[..4]) && AllDigits(s[5..7]) && AllDigits(s[8..])
  }

  function Year(s: string): nat
    requires IsDateFormat(s)
  {
    Decimal(s[..4])
  }

  function Month(s: string): nat
    requires IsDateFormat(s)
  {
    Decimal(s[5..7])
  }

  function Day(s: string): nat
    requires IsDateFormat(s)
  {
    Decimal(s[8..])
  }

  /** Chronological order of two dates: by year, then month, then day. */
  predicate Earlier(a: string, b: string): (r: bool)
    requires IsDateFormat(a) && IsDateFormat(b)
    ensures r ==> Year(a) <= Year(b) && a != b
  {
    Year(a) < Year(b)
    || (Year(a) == Year(b) && Month(a) < Month(b))
    || (Year(a) == Year(b) && Month(a) == Month(b) && Day(a) < Day(b))
  }

  lemma SplitDate(s: string)
    requires IsDateFormat(s)
    ensures s == s[..4] + ([s[4]] + (s[5..7] + ([s[7]] + s[8..])))
  {
  }

  /** Two dates compare as strings field by field: year, then month, then day. */
  lemma DateFieldsOrder(a: string, b: string)
    requires IsDateFormat(a) && IsDateFormat(b)
    ensures Less(a, b) <==>
      Less(a[..4], b[..4]) || (a[..4] == b[..4] &&
        (Less(a[5..7], b[5..7]) || (a[5..7] == b[5..7] && Less(a[8..], b[8..]))))
    ensures a == b <==> a[..4] == b[..4] && a[5..7] == b[5..7] && a[8..] == b[8..]
  {
    SplitDate(a);
    SplitDate(b);
    LessAppend(a[..4], [a[4]] + (a[5..7] + ([a[7]] + a[8..])), b[..4], [b[4]] + (b[5..7] + ([b[7]] + b[8..])));
    LessAppend([a[4]], a[5..7] + ([a[7]] + a[8..]), [b[4]], b[5..7] + ([b[7]] + b[8..]));
    LessAppend(a[5..7], [a[7]] + a[8..], b[5..7], [b[7]] + b[8..]);
    LessAppend([a[7]], a[8..], [b[7]], b[8..]);
    Irreflexive([a[4]]);
    Irreflexive([a[7]]);
  }

  /**
   * On YYYY-MM-DD dates, string order is chronological order, and equal strings
   * are equal dates: sorting deadlines as strings sorts them as dates.
   */
  lemma StringOrderIsChronological(a: string, b: string)
    requires IsDateFormat(a) && IsDateFormat(b)
    ensures Less(a, b) <==> Earlier(a, b)
    ensures a == b <==> !Earlier(a, b) && !Earlier(b, a)
  {
    DateFieldsOrder(a, b);
    DecimalOrder(a[..4], b[..4]);
    DecimalInjective(a[..4], b[..4]);
    DecimalOrder(a[5..7], b[5..7]);
    DecimalInjective(a[5..7], b[5..7]);
    DecimalOrder(a[8..], b[8..]);
    DecimalInjective(a[8..], b[8..]);
  }
}
