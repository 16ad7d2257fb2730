/** Calendar dates as the services handle them: `full-date` strings `YYYY-MM-DD`
    (section 5.6 of RFC 3339) compared as strings, and today's date taken from a
    `toISOString()` timestamp. */
module Dates {

  predicate IsDigit(c: char) { '0' <= c <= '9' }

  predicate AllDigits(s: string) { forall i :: 0 <= i < |s| ==> IsDigit(s[i]) }

  function DigitValue(c: char): nat
    requires IsDigit(c)
  {
    (c as int) - ('0' as int)
  }

  function Pow10(n: nat): nat
  {
    if n == 0 then 1 else 10 * Pow10(n - 1)
  }

  /** The decimal number a string of digits spells. */
  function Number(s: string): nat
    requires AllDigits(s)
    decreases |s|
  {
    if s == [] then 0 else DigitValue(s[0]) * Pow10(|s| - 1) + Number(s[1..])
  }

  /** `date-fullyear "-" date-month "-" date-mday`: four, two and two digits. */
  predicate IsFullDate(s: string)
  {
    |s| == 10 && s[4] == '-' && s[7] == '-' &&
    AllDigits(s[..4]) && AllDigits(s[5..7]) && AllDigits(s[8..])
  }

  function Year(s: string): nat requires IsFullDate(s) { Number(s[..4]) }
  function Month(s: string): nat requires IsFullDate(s) { Number(s[5..7]) }
  function Day(s: string): nat requires IsFullDate(s) { Number(s[8..]) }

  /** Chronological order of two full dates: by year, then month, then day. */
  predicate Earlier(a: string, b: string)
    requires IsFullDate(a) && IsFullDate(b)
  {
    Year(a) < Year(b) ||
    (Year(a) == Year(b) && (Month(a) < Month(b) || (Month(a) == Month(b) && Day(a) < Day(b))))
  }

  /** String order, character by character, a proper prefix first: how a date
      string compares with another. */
  predicate LexLess(a: string, b: string)
    decreases |a|
  {
    if a == [] then b != []
    else if b == [] then false
    else a[0] < b[0] || (a[0] == b[0] && LexLess(a[1..], b[1..]))
  }

  /** The comparisons `lt`, `lte` and `gt` the services apply to date values. */
  predicate DateLess(a: string, b: string) { LexLess(a, b) }
  predicate DateAtMost(a: string, b: string) { LexLess(a, b) || a == b }

  lemma {:induction false} LexLessIrreflexive(a: string)
    ensures !LexLess(a, a)
    decreases |a|
  {
    if a != [] { LexLessIrreflexive(a[1..]); }
  }

  lemma {:induction false} LexLessAsymmetric(a: string, b: string)
    ensures !(LexLess(a, b) && LexLess(b, a))
    decreases |a|
  {
    if a != [] && b != [] { LexLessAsymmetric(a[1..], b[1..]); }
  }

  lemma {:induction false} LexLessTotal(a: string, b: string)
    ensures LexLess(a, b) || a == b || LexLess(b, a)
    decreases |a|
  {
    if a != [] && b != [] {
      LexLessTotal(a[1..], b[1..]);
      if a[0] == b[0] && a[1..] == b[1..] {
        assert a == [a[0]] + a[1..] && b == [b[0]] + b[1..];
      }
    }
  }

  /** Comparing `p + q` with `p' + q'` where `p` and `p'` have the same length
      compares `p` with `p'` first and `q` with `q'` only when they agree. */
  lemma {:induction false} LexLessConcat(p: string, q: string, p': string, q': string)
    requires |p| == |p'|
    ensures LexLess(p + q, p' + q') <==> LexLess(p, p') || (p == p' && LexLess(q, q'))
    decreases |p|
  {
    if p == [] {
      assert p + q == q && p' + q' == q';
    } else {
      assert (p + q)[0] == p[0] && (p + q)[1..] == p[1..] + q;
      assert (p' + q')[0] == p'[0] && (p' + q')[1..] == p'[1..] + q';
      LexLessConcat(p[1..], q, p'[1..], q');
      if p[0] == p'[0] {
        assert p == p' <==> p[1..] == p'[1..] by {
          assert p == [p[0]] + p[1..] && p' == [p'[0]] + p'[1..];
        }
      }
    }
  }

  lemma {:induction false} NumberBound(s: string)
    requires AllDigits(s)
    ensures Number(s) < Pow10(|s|)
    decreases |s|
  {
    if s != [] {
      NumberBound(s[1..]);
      assert DigitValue(s[0]) <= 9;
      calc {
        Number(s);
        DigitValue(s[0]) * Pow10(|s| - 1) + Number(s[1..]);
      <  DigitValue(s[0]) * Pow10(|s| - 1) + Pow10(|s| - 1);
        (DigitValue(s[0]) + 1) * Pow10(|s| - 1);
      <= { MulMono(DigitValue(s[0]) + 1, 10, Pow10(|s| - 1)); }
        10 * Pow10(|s| - 1);
      }
    }
  }

  lemma MulMono(x: nat, y: nat, k: nat)
    requires x <= y
    ensures x * k <= y * k
  {
  }

  /** Place value: a leading digit decides the comparison unless the two agree. */
  lemma PlaceValue(x: nat, y: nat, u: nat, v: nat, k: nat)
    requires u < k && v < k
    ensures x * k + u < y * k + v <==> x < y || (x == y && u < v)
  {
    if x < y {
      MulMono(x + 1, y, k);
    } else if y < x {
      MulMono(y + 1, x, k);
    }
  }

  /** For digit strings of one length, string order is numeric order. */
  lemma {:induction false} LexLessDigits(a: string, b: string)
    requires AllDigits(a) && AllDigits(b) && |a| == |b|
    ensures LexLess(a, b) <==> Number(a) < Number(b)
    decreases |a|
  {
    if a != [] {
      assert AllDigits(a[1..]) && AllDigits(b[1..]);
      NumberBound(a[1..]);
      NumberBound(b[1..]);
      LexLessDigits(a[1..], b[1..]);
      PlaceValue(DigitValue(a[0]), DigitValue(b[0]), Number(a[1..]), Number(b[1..]), Pow10(|a| - 1));
    }
  }

  /** Digit strings of one length spell the same number only when they are equal. */
  lemma DigitsEqual(a: string, b: string)
    requires AllDigits(a) && AllDigits(b) && |a| == |b|
    ensures a == b <==> Number(a) == Number(b)
  {
    LexLessDigits(a, b);
    LexLessDigits(b, a);
    LexLessTotal(a, b);
  }

  /** String order on full dates is chronological order: this is why comparing
      `YYYY-MM-DD` strings orders days (section 5.1 of RFC 3339). */
  lemma FullDateOrder(a: string, b: string)
    requires IsFullDate(a) && IsFullDate(b)
    ensures DateLess(a, b) <==> Earlier(a, b)
  {
    assert a == a[..4] + ([a[4]] + (a[5..7] + ([a[7]] + a[8..])));
    assert b == b[..4] + ([b[4]] + (b[5..7] + ([b[7]] + b[8..])));
    LexLessConcat(a[..4], [a[4]] + (a[5..7] + ([a[7]] + a[8..])), b[..4], [b[4]] + (b[5..7] + ([b[7]] + b[8..])));
    LexLessConcat([a[4]], a[5..7] + ([a[7]] + a[8..]), [b[4]], b[5..7] + ([b[7]] + b[8..]));
    LexLessConcat(a[5..7], [a[7]] + a[8..], b[5..7], [b[7]] + b[8..]);
    LexLessConcat([a[7]], a[8..], [b[7]], b[8..]);
    LexLessIrreflexive([a[4]]);
    LexLessIrreflexive([a[7]]);
    LexLessDigits(a[..4], b[..4]);
    LexLessDigits(a[5..7], b[5..7]);
    LexLessDigits(a[8..], b[8..]);
    DigitsEqual(a[..4], b[..4]);
    DigitsEqual(a[5..7], b[5..7]);
  }

  /** `toISOString().split("T")[0]`: the part of a timestamp before its first `T`,
      or all of it when it has none. */
  function Today(iso: string): (d: string)
    ensures d <= iso
    ensures 'T' !in d
    ensures |d| < |iso| ==> iso[|d|] == 'T'
    decreases |iso|
  {
    if iso == [] || iso[0] == 'T' then [] else [iso[0]] + Today(iso[1..])
  }

  /** The shape `Date.prototype.toISOString` produces for years 0 to 9999:
      `YYYY-MM-DDTHH:mm:ss.sssZ`. */
  predicate IsIsoTimestamp(iso: string)
  {
    |iso| == 24 && IsFullDate(iso[..10]) && iso[10] == 'T' &&
    AllDigits(iso[11..13]) && iso[13] == ':' && AllDigits(iso[14..16]) && iso[16] == ':' &&
    AllDigits(iso[17..19]) && iso[19] == '.' && AllDigits(iso[20..23]) && iso[23] == 'Z'
  }

  /** The date the current reservation service calls `now` is the timestamp's
      `full-date` part. */
  lemma TodayOfIsoTimestamp(iso: string)
    requires IsIsoTimestamp(iso)
    ensures Today(iso) == iso[..10]
    ensures IsFullDate(Today(iso))
  {
    var d := Today(iso);
    assert forall i :: 0 <= i < 10 ==> iso[i] != 'T' by {
      forall i | 0 <= i < 10 ensures iso[i] != 'T' {
        assert iso[..10][i] == iso[i];
      }
    }
    assert |d| >= 10;
  }
}
