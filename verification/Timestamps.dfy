/**
 Stored timestamps are compared as text. This module proves that the order of the texts is the
 order of the instants, although the printer drops a zero fraction and prints 3, 6 or 9 digits
 otherwise.
 */
module Timestamps {

  // ----- text order -----

  /** Strict order of texts by code point; that the databases compare them so is assumed. */
  predicate Less(a: string, b: string) {
    if b == "" then false
    else if a == "" then true
    else if a[0] != b[0] then a[0] < b[0]
    else Less(a[1..], b[1..])
  }

  lemma {:induction false} LessPrefix(p: string, a: string, b: string)
    ensures Less(p + a, p + b) == Less(a, b)
  {
    if p == "" {
      assert p + a == a && p + b == b;
    } else {
      assert (p + a)[1..] == p[1..] + a && (p + b)[1..] == p[1..] + b;
      LessPrefix(p[1..], a, b);
    }
  }

  lemma {:induction false} LessAsymmetric(a: string, b: string)
    requires Less(a, b)
    ensures !Less(b, a) && a != b
  {
    if a != "" && a[0] == b[0] {
      LessAsymmetric(a[1..], b[1..]);
    }
  }

  // ----- instants and their text -----

  /** A UTC instant by its calendar fields; the year prints with four digits. */
  datatype Stamp = Stamp(year: nat, month: nat, day: nat, hour: nat, minute: nat, second: nat, nanos: nat) {
    predicate Valid() {
      && year < 10_000 && 1 <= month <= 12 && 1 <= day <= 31
      && hour < 24 && minute < 60 && second < 60 && nanos < 1_000_000_000
    }

    /** Chronological order. */
    predicate Before(other: Stamp) {
      if year != other.year then year < other.year
      else if month != other.month then month < other.month
      else if day != other.day then day < other.day
      else if hour != other.hour then hour < other.hour
      else if minute != other.minute then minute < other.minute
      else if second != other.second then second < other.second
      else nanos < other.nanos
    }
  }

  function Digit(n: nat): char
    requires n < 10
  {
    '0' + n as char
  }

  function Pow10(w: nat): (p: nat)
    ensures p >= 1
  {
    if w == 0 then 1 else 10 * Pow10(w - 1)
  }

  /** The last `w` decimal digits of `n`, zero-padded. */
  function Digits(w: nat, n: nat): (s: string)
    ensures |s| == w
  {
    if w == 0 then "" else Digits(w - 1, n / 10) + [Digit(n % 10)]
  }

  /** `SecondsFormat::AutoSi`: no fraction, or as few groups of three digits as are exact. */
  function Fraction(nanos: nat): string {
    if nanos == 0 then ""
    else if nanos % 1_000_000 == 0 then "." + Digits(3, nanos / 1_000_000)
    else if nanos % 1_000 == 0 then "." + Digits(6, nanos / 1_000)
    else "." + Digits(9, nanos)
  }

  const ZONE: string := "+00:00"

  function SecondText(t: Stamp): string {
    Digits(2, t.second) + (Fraction(t.nanos) + ZONE)
  }

  function MinuteText(t: Stamp): string {
    Digits(2, t.minute) + (":" + SecondText(t))
  }

  function HourText(t: Stamp): string {
    Digits(2, t.hour) + (":" + MinuteText(t))
  }

  function DayText(t: Stamp): string {
    Digits(2, t.day) + ("T" + HourText(t))
  }

  function MonthText(t: Stamp): string {
    Digits(2, t.month) + ("-" + DayText(t))
  }

  /** `to_rfc3339`. */
  function Text(t: Stamp): string {
    Digits(4, t.year) + ("-" + MonthText(t))
  }

  // ----- the theorem -----

  /** Of two equally long numerals the smaller sorts first, whatever follows. */
  lemma {:induction false} DigitsOrder(w: nat, x: nat, y: nat, a: string, b: string)
    requires x < y < Pow10(w)
    ensures Less(Digits(w, x) + a, Digits(w, y) + b)
  {
    var p, q := Digits(w - 1, x / 10), Digits(w - 1, y / 10);
    var dx, dy := [Digit(x % 10)] + a, [Digit(y % 10)] + b;
    assert Digits(w, x) + a == p + dx && Digits(w, y) + b == q + dy;
    if x / 10 < y / 10 {
      DigitsOrder(w - 1, x / 10, y / 10, dx, dy);
    } else {
      LessPrefix(p, dx, dy);
    }
  }

  /** One field of the text: equal numerals defer to what follows. */
  lemma FieldOrder(w: nat, x: nat, y: nat, a: string, b: string)
    requires x < Pow10(w) && y < Pow10(w)
    ensures x < y ==> Less(Digits(w, x) + a, Digits(w, y) + b)
    ensures x == y ==> Less(Digits(w, x) + a, Digits(w, y) + b) == Less(a, b)
  {
    if x < y {
      DigitsOrder(w, x, y, a, b);
    } else if x == y {
      LessPrefix(Digits(w, x), a, b);
    }
  }

  lemma Peel(w: nat, n: nat)
    ensures Digits(w + 1, n) == Digits(w, n / 10) + [Digit(n % 10)]
  {
  }

  lemma PeelThree(v: nat, n: nat, a: nat, b: nat, c: nat)
    requires a == n / 10 && b == a / 10 && c == b / 10
    ensures Digits(v + 3, n) == Digits(v, c) + [Digit(b % 10), Digit(a % 10), Digit(n % 10)]
  {
    Peel(v + 2, n);
    Peel(v + 1, a);
    Peel(v, b);
  }

  lemma ThreeDigits(n: nat, m: nat)
    requires m == n % 1_000
    ensures n / 10 / 10 / 10 == n / 1_000 && m / 10 / 10 / 10 == 0
    ensures m % 10 == n % 10 && m / 10 % 10 == n / 10 % 10 && m / 10 / 10 % 10 == n / 10 / 10 % 10
  {
  }

  /** The last three digits of a numeral are a group of their own. */
  lemma LastGroup(v: nat, n: nat)
    ensures Digits(v + 3, n) == Digits(v, n / 1_000) + Digits(3, n % 1_000)
  {
    var m := n % 1_000;
    ThreeDigits(n, m);
    PeelThree(v, n, n / 10, n / 10 / 10, n / 10 / 10 / 10);
    PeelThree(0, m, m / 10, m / 10 / 10, m / 10 / 10 / 10);
    assert Digits(0, 0) == "";
  }

  /** How many groups of three digits the printer uses. */
  function Groups(nanos: nat): nat {
    if nanos == 0 then 0
    else if nanos % 1_000_000 == 0 then 1
    else if nanos % 1_000 == 0 then 2
    else 3
  }

  /** The numeral printed with `g` groups. */
  function Scaled(nanos: nat, g: nat): nat {
    if g == 1 then nanos / 1_000_000 else if g == 2 then nanos / 1_000 else nanos
  }

  lemma OneGroup(nanos: nat)
    ensures var mid := Digits(3, nanos / 1_000 % 1_000);
            && Digits(6, nanos / 1_000) == Digits(3, nanos / 1_000_000) + mid
            && Digits(9, nanos) == Digits(3, nanos / 1_000_000) + (mid + Digits(3, nanos % 1_000))
            && |mid| == 3 && (mid + Digits(3, nanos % 1_000))[0] == mid[0]
  {
    assert nanos / 1_000 / 1_000 == nanos / 1_000_000;
    LastGroup(6, nanos);
    LastGroup(3, nanos / 1_000);
  }

  /** Printing fewer groups drops a suffix that starts with a digit. */
  lemma FewerGroups(nanos: nat, g: nat, h: nat)
    requires 1 <= g < h <= 3
    ensures exists rest: string ::
              && |rest| > 0 && '0' <= rest[0] <= '9'
              && Digits(3 * h, Scaled(nanos, h)) == Digits(3 * g, Scaled(nanos, g)) + rest
  {
    if g == 1 {
      OneGroup(nanos);
      FirstDigit(3, nanos / 1_000 % 1_000);
    } else {
      LastGroup(6, nanos);
      FirstDigit(3, nanos % 1_000);
    }
  }

  lemma FirstDigit(w: nat, n: nat)
    requires w > 0
    ensures '0' <= Digits(w, n)[0] <= '9'
  {
  }

  lemma ScaledRange(nanos: nat, g: nat)
    requires nanos < 1_000_000_000 && 1 <= g <= 3
    ensures Scaled(nanos, g) < Pow10(3 * g)
  {
    assert Pow10(3) == 1_000;
    assert Pow10(6) == 1_000_000 by {
      assert Pow10(4) == 10_000;
    }
    assert Pow10(9) == 1_000_000_000 by {
      assert Pow10(7) == 10_000_000;
      assert Pow10(8) == 100_000_000;
    }
  }

  lemma FractionText(x: nat)
    ensures Groups(x) > 0 ==> Fraction(x) == "." + Digits(3 * Groups(x), Scaled(x, Groups(x)))
    ensures Groups(x) == 0 ==> Fraction(x) == ""
  {
  }

  /** Cut a printed fraction after its first `g` groups: a digit or the zone follows. */
  lemma CutFraction(x: nat, g: nat) returns (rest: string)
    requires 1 <= g <= Groups(x)
    ensures Fraction(x) + ZONE == "." + (Digits(3 * g, Scaled(x, g)) + rest)
    ensures g == Groups(x) ==> rest == ZONE
    ensures g < Groups(x) ==> rest != "" && '0' <= rest[0] <= '9'
  {
    FractionText(x);
    var s := Digits(3 * Groups(x), Scaled(x, Groups(x)));
    if g < Groups(x) {
      FewerGroups(x, g, Groups(x));
      var r :| |r| > 0 && '0' <= r[0] <= '9' && s == Digits(3 * g, Scaled(x, g)) + r;
      rest := r + ZONE;
    } else {
      rest := ZONE;
    }
    assert Fraction(x) + ZONE == "." + (Digits(3 * g, Scaled(x, g)) + rest);
  }

  /** When the common groups agree, the smaller fraction is the one that stops there. */
  lemma ScaledOrder(x: nat, y: nat, g: nat)
    requires x < y && 1 <= g <= Groups(x) && g <= Groups(y) && (g == Groups(x) || g == Groups(y))
    ensures Scaled(x, g) <= Scaled(y, g)
    ensures Scaled(x, g) == Scaled(y, g) ==> g == Groups(x) < Groups(y)
  {
  }

  /** Fractions of different lengths sort by value: the zone's `+` precedes `.` and every digit. */
  lemma FractionOrder(x: nat, y: nat)
    requires x < y < 1_000_000_000
    ensures Less(Fraction(x) + ZONE, Fraction(y) + ZONE)
  {
    FractionText(x);
    FractionText(y);
    if Groups(x) > 0 {
      var g := if Groups(x) < Groups(y) then Groups(x) else Groups(y);
      var rx := CutFraction(x, g);
      var ry := CutFraction(y, g);
      ScaledRange(x, g);
      ScaledRange(y, g);
      ScaledOrder(x, y, g);
      FieldOrder(3 * g, Scaled(x, g), Scaled(y, g), rx, ry);
      LessPrefix(".", Digits(3 * g, Scaled(x, g)) + rx, Digits(3 * g, Scaled(y, g)) + ry);
    }
  }

  /** Earlier instants have smaller texts. */
  lemma BeforeIsLess(a: Stamp, b: Stamp)
    requires a.Valid() && b.Valid() && a.Before(b)
    ensures Less(Text(a), Text(b))
  {
    assert Pow10(2) == 100 && Pow10(4) == 10_000;
    if a.nanos < b.nanos {
      FractionOrder(a.nanos, b.nanos);
    }
    FieldOrder(2, a.second, b.second, Fraction(a.nanos) + ZONE, Fraction(b.nanos) + ZONE);
    LessPrefix(":", SecondText(a), SecondText(b));
    FieldOrder(2, a.minute, b.minute, ":" + SecondText(a), ":" + SecondText(b));
    LessPrefix(":", MinuteText(a), MinuteText(b));
    FieldOrder(2, a.hour, b.hour, ":" + MinuteText(a), ":" + MinuteText(b));
    LessPrefix("T", HourText(a), HourText(b));
    FieldOrder(2, a.day, b.day, "T" + HourText(a), "T" + HourText(b));
    LessPrefix("-", DayText(a), DayText(b));
    FieldOrder(2, a.month, b.month, "-" + DayText(a), "-" + DayText(b));
    LessPrefix("-", MonthText(a), MonthText(b));
    FieldOrder(4, a.year, b.year, "-" + MonthText(a), "-" + MonthText(b));
  }

  /** Comparing the stored texts is comparing the instants. */
  lemma TextOrderIsTimeOrder(a: Stamp, b: Stamp)
    requires a.Valid() && b.Valid()
    ensures Less(Text(a), Text(b)) <==> a.Before(b)
    ensures Text(a) == Text(b) <==> a == b
  {
    if a.Before(b) {
      BeforeIsLess(a, b);
      LessAsymmetric(Text(a), Text(b));
    } else if b.Before(a) {
      BeforeIsLess(b, a);
      LessAsymmetric(Text(b), Text(a));
    } else {
      LessPrefix(Text(a), "", "");
      assert Text(a) + "" == Text(a);
    }
  }
}
