// The completion record's keys: date-fns format(d, 'yyyy-MM-dd'), the
// parseISO that turns the earliest key back into a date, and the order in
// which Array.prototype.sort puts the keys (JavaScript string comparison).

module DateKeys {
  import opened Wrappers
  import opened Calendar

  predicate IsDigit(c: char) {
    '0' <= c <= '9'
  }

  predicate AllDigits(s: string) {
    forall i :: 0 <= i < |s| ==> IsDigit(s[i])
  }

  function DigitChar(n: int): (c: char)
    requires 0 <= n <= 9
    ensures IsDigit(c)
  {
    (48 + n) as char
  }

  function DigitValue(c: char): (n: int)
    requires IsDigit(c)
    ensures 0 <= n <= 9 && DigitChar(n) == c
  {
    c as int - 48
  }

  function Pow10(k: nat): (p: nat)
    ensures p >= 1
  {
    if k == 0 then 1 else 10 * Pow10(k - 1)
  }

  /** Number.prototype.toString for a non-negative integer: no leading zeros. */
  function NatDigits(n: nat): (s: string)
    ensures |s| >= 1 && AllDigits(s)
  {
    if n < 10 then [DigitChar(n)] else NatDigits(n / 10) + [DigitChar(n % 10)]
  }

  /** String.prototype.padStart(width, "0"). */
  function PadStart(s: string, width: nat): (r: string)
    ensures |r| == if |s| < width then width else |s|
    decreases width - |s|
  {
    if |s| >= width then s else PadStart("0" + s, width)
  }

  /** date-fns addLeadingZeros for a non-negative number. */
  function AddLeadingZeros(n: nat, width: nat): string {
    PadStart(NatDigits(n), width)
  }

  /**
   * The year date-fns prints for the 'yyyy' token: the year of the era, so
   * year 0 (1 BC) prints as 1 and year -1 as 2.
   */
  function EraYear(y: int): (e: nat)
    ensures e >= 1
  {
    if y > 0 then y else 1 - y
  }

  /** format(d, 'yyyy-MM-dd'): the key the completion record is indexed by. */
  function FormatKey(d: Date): string
    requires ValidDate(d)
  {
    AddLeadingZeros(EraYear(d.year), 4) + "-" + AddLeadingZeros(d.month, 2) + "-" + AddLeadingZeros(d.day, 2)
  }

  /** The value of a string of decimal digits. */
  function DigitsValue(s: string): nat
    requires AllDigits(s)
  {
    if s == [] then 0 else 10 * DigitsValue(s[..|s| - 1]) + DigitValue(s[|s| - 1])
  }

  /**
   * parseISO restricted to the calendar-date form yyyy-MM-dd: the local
   * midnight of that date, or None (an Invalid Date) when the string is not
   * of that form or names a day the month does not have.
   */
  function ParseIso(s: string): (r: Option<Date>)
    ensures r.Some? ==> ValidDate(r.value) && 0 <= r.value.year <= 9999
  {
    if |s| == 10 && s[4] == '-' && s[7] == '-'
      && AllDigits(s[..4]) && AllDigits(s[5..7]) && AllDigits(s[8..])
    then
      FixedValueBound(s[..4]);
      var d := Date(DigitsValue(s[..4]), DigitsValue(s[5..7]), DigitsValue(s[8..]));
      if ValidDate(d) then Some(d) else None
    else None
  }

  // ---------------------------------------------------------------------
  // Fixed-width decimal numerals

  /** The last `w` decimal digits of `n`, with leading zeros. */
  function Fixed(n: nat, w: nat): (s: string)
    ensures |s| == w && AllDigits(s)
  {
    if w == 0 then [] else Fixed(n / 10, w - 1) + [DigitChar(n % 10)]
  }

  lemma {:induction false} FixedValue(n: nat, w: nat)
    requires n < Pow10(w)
    ensures DigitsValue(Fixed(n, w)) == n
  {
    if w > 0 {
      var s := Fixed(n, w);
      var q, r := n / 10, n % 10;
      assert s == Fixed(q, w - 1) + [DigitChar(r)];
      assert s[..|s| - 1] == Fixed(q, w - 1);
      assert DigitValue(s[|s| - 1]) == r;
      assert q < Pow10(w - 1);
      FixedValue(q, w - 1);
      assert DigitsValue(s) == 10 * q + r;
    }
  }

  lemma {:induction false} FixedValueBound(s: string)
    requires AllDigits(s)
    ensures DigitsValue(s) < Pow10(|s|)
    ensures Fixed(DigitsValue(s), |s|) == s
  {
    if s != [] {
      var p := s[..|s| - 1];
      FixedValueBound(p);
      var v := DigitsValue(s);
      assert v / 10 == DigitsValue(p) && v % 10 == DigitValue(s[|s| - 1]);
      assert s == p + [s[|s| - 1]];
    }
  }

  lemma {:induction false} FixedInjective(a: nat, b: nat, w: nat)
    requires a < Pow10(w) && b < Pow10(w)
    ensures Fixed(a, w) == Fixed(b, w) <==> a == b
  {
    if Fixed(a, w) == Fixed(b, w) {
      FixedValue(a, w);
      FixedValue(b, w);
    }
  }

  /** A number below 10^k printed in k + 1 digits starts with a zero. */
  lemma {:induction false} FixedLeadingZero(n: nat, k: nat)
    requires n < Pow10(k)
    ensures Fixed(n, k + 1) == "0" + Fixed(n, k)
  {
    if k == 0 {
      assert n == 0;
    } else {
      FixedLeadingZero(n / 10, k - 1);
    }
  }

  function NumDigits(n: nat): (k: nat)
    ensures k >= 1
  {
    if n < 10 then 1 else 1 + NumDigits(n / 10)
  }

  lemma {:induction false} NatDigitsFixed(n: nat)
    ensures n < Pow10(NumDigits(n))
    ensures NatDigits(n) == Fixed(n, NumDigits(n))
  {
    if n >= 10 {
      NatDigitsFixed(n / 10);
    }
  }

  lemma {:induction false} PadFixed(n: nat, k: nat, w: nat)
    requires n < Pow10(k) && k <= w
    ensures PadStart(Fixed(n, k), w) == Fixed(n, w)
    decreases w - k
  {
    if k < w {
      FixedLeadingZero(n, k);
      assert Pow10(k) <= Pow10(k + 1);
      PadFixed(n, k + 1, w);
    }
  }

  lemma {:induction false} Pow10Monotone(j: nat, k: nat)
    requires j <= k
    ensures Pow10(j) <= Pow10(k)
    decreases k - j
  {
    if j < k {
      Pow10Monotone(j + 1, k);
    }
  }

  /** addLeadingZeros(n, w) is the w-digit numeral of n whenever n has at most w digits. */
  lemma AddLeadingZerosFixed(n: nat, w: nat)
    requires 1 <= w && n < Pow10(w)
    ensures AddLeadingZeros(n, w) == Fixed(n, w)
  {
    NatDigitsFixed(n);
    if NumDigits(n) <= w {
      PadFixed(n, NumDigits(n), w);
    } else {
      NumDigitsLower(n);
      Pow10Monotone(w, NumDigits(n) - 1);
      assert false;
    }
  }

  lemma {:induction false} NumDigitsLower(n: nat)
    ensures Pow10(NumDigits(n) - 1) <= n || n == 0
  {
    if n >= 10 {
      NumDigitsLower(n / 10);
    }
  }

  /** The key of a date of years 1..9999, written with fixed-width fields. */
  lemma FormatKeyFixed(d: Date)
    requires ValidDate(d) && 1 <= d.year <= 9999
    ensures FormatKey(d) == Fixed(d.year, 4) + "-" + Fixed(d.month, 2) + "-" + Fixed(d.day, 2)
  {
    assert Pow10(2) == 100 && Pow10(4) == 10000;
    AddLeadingZerosFixed(d.year, 4);
    AddLeadingZerosFixed(d.month, 2);
    AddLeadingZerosFixed(d.day, 2);
  }

  // ---------------------------------------------------------------------
  // Round trip between dates and keys

  /** Parsing the key of a date (years 1..9999) gives back that date. */
  lemma ParseFormatKey(d: Date)
    requires ValidDate(d) && 1 <= d.year <= 9999
    ensures ParseIso(FormatKey(d)) == Some(d)
  {
    FormatKeyFixed(d);
    ParseFixed(d);
  }

  /** parseISO reads a date back from its parts written at their widths. */
  lemma ParseFixed(d: Date)
    requires ValidDate(d) && 1 <= d.year <= 9999
    ensures ParseIso(Fixed(d.year, 4) + "-" + Fixed(d.month, 2) + "-" + Fixed(d.day, 2)) == Some(d)
  {
    var s := Fixed(d.year, 4) + "-" + Fixed(d.month, 2) + "-" + Fixed(d.day, 2);
    assert Pow10(2) == 100 && Pow10(4) == 10000;
    assert s[..4] == Fixed(d.year, 4);
    assert s[5..7] == Fixed(d.month, 2);
    assert s[8..] == Fixed(d.day, 2);
    FixedValue(d.year, 4);
    FixedValue(d.month, 2);
    FixedValue(d.day, 2);
  }

  /** A key that parses to a date of year 1 or later is that date's own key. */
  lemma FormatParsedKey(s: string)
    requires ParseIso(s).Some? && ParseIso(s).value.year >= 1
    ensures FormatKey(ParseIso(s).value) == s
  {
    var d := ParseIso(s).value;
    ParsedFixed(s);
    FormatKeyFixed(d);
  }

  /** The parts parseISO reads back, written at their widths, give the string again. */
  lemma ParsedFixed(s: string)
    requires ParseIso(s).Some?
    ensures var d := ParseIso(s).value;
      Fixed(d.year, 4) + "-" + Fixed(d.month, 2) + "-" + Fixed(d.day, 2) == s
  {
    var ys, ms, ds := s[..4], s[5..7], s[8..];
    assert ParseIso(s).value == Date(DigitsValue(ys), DigitsValue(ms), DigitsValue(ds));
    FixedValueBound(ys);
    FixedValueBound(ms);
    FixedValueBound(ds);
    assert s == ys + "-" + ms + "-" + ds;
  }

  /** Distinct dates of years 1..9999 have distinct keys. */
  lemma FormatKeyInjective(a: Date, b: Date)
    requires ValidDate(a) && 1 <= a.year <= 9999
    requires ValidDate(b) && 1 <= b.year <= 9999
    ensures FormatKey(a) == FormatKey(b) <==> a == b
  {
    ParseFormatKey(a);
    ParseFormatKey(b);
  }

  // ---------------------------------------------------------------------
  // JavaScript string order (the default comparator of Array.prototype.sort)

  predicate LexLess(a: string, b: string) {
    if |a| == 0 then |b| > 0
    else if |b| == 0 then false
    else if a[0] != b[0] then a[0] < b[0]
    else LexLess(a[1..], b[1..])
  }

  lemma {:induction false} LexIrreflexive(a: string)
    ensures !LexLess(a, a)
  {
    if |a| > 0 {
      LexIrreflexive(a[1..]);
    }
  }

  lemma {:induction false} LexTrichotomy(a: string, b: string)
    ensures a == b || LexLess(a, b) || LexLess(b, a)
    ensures !(LexLess(a, b) && LexLess(b, a))
  {
    if |a| > 0 && |b| > 0 && a[0] == b[0] {
      LexTrichotomy(a[1..], b[1..]);
      assert a == [a[0]] + a[1..] && b == [b[0]] + b[1..];
    }
  }

  lemma {:induction false} LexTransitive(a: string, b: string, c: string)
    requires LexLess(a, b) && LexLess(b, c)
    ensures LexLess(a, c)
  {
    if |a| > 0 && a[0] == b[0] && b[0] == c[0] {
      LexTransitive(a[1..], b[1..], c[1..]);
    }
  }

  lemma LexTotal()
    ensures forall a, b :: LexLess(a, b) || LexLess(b, a) || a == b
    ensures forall a, b :: !(LexLess(a, b) && LexLess(b, a))
  {
    forall a, b ensures (LexLess(a, b) || LexLess(b, a) || a == b) && !(LexLess(a, b) && LexLess(b, a)) {
      LexTrichotomy(a, b);
    }
  }

  /** Comparing two strings whose first parts have the same length. */
  lemma {:induction false} LexConcat(p1: string, q1: string, p2: string, q2: string)
    requires |p1| == |p2|
    ensures LexLess(p1 + q1, p2 + q2) <==> LexLess(p1, p2) || (p1 == p2 && LexLess(q1, q2))
  {
    if |p1| == 0 {
      assert p1 + q1 == q1 && p2 + q2 == q2;
    } else {
      assert (p1 + q1)[0] == p1[0] && (p2 + q2)[0] == p2[0];
      assert (p1 + q1)[1..] == p1[1..] + q1 && (p2 + q2)[1..] == p2[1..] + q2;
      LexConcat(p1[1..], q1, p2[1..], q2);
      if p1[0] == p2[0] {
        assert p1 == p2 <==> p1[1..] == p2[1..] by {
          assert p1 == [p1[0]] + p1[1..] && p2 == [p2[0]] + p2[1..];
        }
      }
    }
  }

  /** Fixed-width numerals sort as the numbers they denote. */
  lemma {:induction false} LexFixed(a: nat, b: nat, w: nat)
    requires a < Pow10(w) && b < Pow10(w)
    ensures LexLess(Fixed(a, w), Fixed(b, w)) <==> a < b
  {
    if w == 0 {
      assert a == 0 && b == 0;
    } else {
      LexConcat(Fixed(a / 10, w - 1), [DigitChar(a % 10)], Fixed(b / 10, w - 1), [DigitChar(b % 10)]);
      LexFixed(a / 10, b / 10, w - 1);
      FixedInjective(a / 10, b / 10, w - 1);
    }
  }

  /** Two keys built from parts of equal widths compare part by part. */
  lemma KeyParts(y1: string, m1: string, d1: string, y2: string, m2: string, d2: string)
    requires |y1| == |y2| && |m1| == |m2|
    ensures LexLess(y1 + "-" + m1 + "-" + d1, y2 + "-" + m2 + "-" + d2) <==>
      LexLess(y1, y2) || (y1 == y2 && (LexLess(m1, m2) || (m1 == m2 && LexLess(d1, d2))))
  {
    assert y1 + "-" + m1 + "-" + d1 == y1 + ("-" + (m1 + ("-" + d1)));
    assert y2 + "-" + m2 + "-" + d2 == y2 + ("-" + (m2 + ("-" + d2)));
    LexIrreflexive("-");
    LexConcat(y1, "-" + (m1 + ("-" + d1)), y2, "-" + (m2 + ("-" + d2)));
    LexConcat("-", m1 + ("-" + d1), "-", m2 + ("-" + d2));
    LexConcat(m1, "-" + d1, m2, "-" + d2);
    LexConcat("-", d1, "-", d2);
  }

  /** Fixed-width numerals compare and coincide as the numbers they denote. */
  lemma FixedOrder(a: nat, b: nat, w: nat)
    requires a < Pow10(w) && b < Pow10(w)
    ensures LexLess(Fixed(a, w), Fixed(b, w)) <==> a < b
    ensures Fixed(a, w) == Fixed(b, w) <==> a == b
  {
    LexFixed(a, b, w);
    FixedInjective(a, b, w);
  }

  /** Keys sort chronologically, for dates of years 1..9999. */
  lemma KeyOrder(a: Date, b: Date)
    requires ValidDate(a) && 1 <= a.year <= 9999
    requires ValidDate(b) && 1 <= b.year <= 9999
    ensures LexLess(FormatKey(a), FormatKey(b)) <==> DateLt(a, b)
  {
    FormatKeyFixed(a);
    FormatKeyFixed(b);
    assert Pow10(2) == 100 && Pow10(4) == 10000;
    KeyParts(Fixed(a.year, 4), Fixed(a.month, 2), Fixed(a.day, 2), Fixed(b.year, 4), Fixed(b.month, 2), Fixed(b.day, 2));
    FixedOrder(a.year, b.year, 4);
    FixedOrder(a.month, b.month, 2);
    FixedOrder(a.day, b.day, 2);
  }

  // ---------------------------------------------------------------------
  // The first key in sorted order

  predicate IsLeast(m: string, keys: set<string>) {
    m in keys && forall k :: k in keys ==> !LexLess(k, m)
  }

  lemma {:induction false} LeastExists(keys: set<string>)
    requires keys != {}
    ensures exists m :: IsLeast(m, keys)
    decreases |keys|
  {
    var x :| x in keys;
    if keys == {x} {
      LexIrreflexive(x);
      assert IsLeast(x, keys);
    } else {
      var rest := keys - {x};
      LeastExists(rest);
      var m :| IsLeast(m, rest);
      if LexLess(x, m) {
        LeastOfInsert(x, m, rest);
        assert rest + {x} == keys;
      } else {
        assert IsLeast(m, keys) by {
          forall k | k in keys ensures !LexLess(k, m) {
            if k != x {
              assert k in rest;
            }
          }
        }
      }
    }
  }

  lemma LeastOfInsert(x: string, m: string, rest: set<string>)
    requires IsLeast(m, rest) && LexLess(x, m)
    ensures IsLeast(x, rest + {x})
  {
    forall k | k in rest + {x} ensures !LexLess(k, x) {
      if k == x {
        LexIrreflexive(x);
      } else if LexLess(k, x) {
        LexTransitive(k, x, m);
      }
    }
  }

  /** Object.keys(completions).sort()[0]: the least key in JavaScript string order. */
  function FirstKey(keys: set<string>): (m: string)
    requires keys != {}
    ensures m in keys
    ensures forall k :: k in keys ==> !LexLess(k, m)
    ensures forall k :: k in keys && k != m ==> LexLess(m, k)
  {
    LeastExists(keys);
    LexTotal();
    var m :| m in keys && IsLeast(m, keys);
    m
  }
}
