/**
 * The backup timestamp: `datetime.now().strftime("%Y%m%d%H%M%S")`, a local
 * date and time printed as fourteen digits with every field zero-padded.
 * The clock is not read here; the time is a parameter.
 */
module Timestamp {
  import opened Text

  /** The fields of a `datetime` that the format prints (microseconds are not printed). */
  datatype DateTime = DateTime(year: nat, month: nat, day: nat, hour: nat, minute: nat, second: nat)

  predicate IsLeapYear(year: nat) {
    year % 4 == 0 && (year % 100 != 0 || year % 400 == 0)
  }

  function DaysInMonth(year: nat, month: nat): nat
    requires 1 <= month <= 12
  {
    if month == 2 then (if IsLeapYear(year) then 29 else 28)
    else if month == 4 || month == 6 || month == 9 || month == 11 then 30
    else 31
  }

  /** The values a `datetime` can hold: years 1 to 9999, real calendar days, a 24-hour clock. */
  predicate Valid(t: DateTime) {
    && 1 <= t.year <= 9999
    && 1 <= t.month <= 12
    && 1 <= t.day <= DaysInMonth(t.year, t.month)
    && t.hour < 24 && t.minute < 60 && t.second < 60
  }

  /** Chronological order of two date-times, to the second. */
  predicate Before(a: DateTime, b: DateTime) {
    || a.year < b.year
    || (a.year == b.year && a.month < b.month)
    || (a.year == b.year && a.month == b.month && a.day < b.day)
    || (a.year == b.year && a.month == b.month && a.day == b.day && a.hour < b.hour)
    || (a.year == b.year && a.month == b.month && a.day == b.day && a.hour == b.hour && a.minute < b.minute)
    || (a.year == b.year && a.month == b.month && a.day == b.day && a.hour == b.hour && a.minute == b.minute
        && a.second < b.second)
  }

  function Pow10(w: nat): (r: nat)
    ensures r >= 1
  {
    if w == 0 then 1 else 10 * Pow10(w - 1)
  }

  predicate IsDigit(c: char) {
    '0' <= c <= '9'
  }

  function Digit(d: nat): (c: char)
    requires d < 10
    ensures IsDigit(c)
  {
    ('0' as int + d) as char
  }

  /** `n` in decimal, zero-padded on the left to `width` digits (`%04d`, `%02d`). */
  function Padded(n: nat, width: nat): (r: string)
    ensures |r| == width
    ensures forall i :: 0 <= i < |r| ==> IsDigit(r[i])
  {
    if width == 0 then [] else Padded(n / 10, width - 1) + [Digit(n % 10)]
  }

  /** The number a string of decimal digits denotes (`int(s)`, with `int("") == 0`). */
  function Value(s: string): nat
    requires forall i :: 0 <= i < |s| ==> IsDigit(s[i])
  {
    if s == [] then 0
    else
      assert IsDigit(s[|s| - 1]);
      10 * Value(s[..|s| - 1]) + (s[|s| - 1] as int - '0' as int)
  }

  /** Reading a padded field back gives the number, as long as it fits the width. */
  lemma {:induction false} PaddedValue(n: nat, width: nat)
    requires n < Pow10(width)
    ensures Value(Padded(n, width)) == n
  {
    if width > 0 {
      var prefix := Padded(n / 10, width - 1);
      assert Padded(n, width)[..width - 1] == prefix;
      assert n / 10 < Pow10(width - 1);
      PaddedValue(n / 10, width - 1);
    }
  }

  lemma PaddedInjective(n: nat, m: nat, width: nat)
    requires n < Pow10(width) && m < Pow10(width)
    ensures Padded(n, width) == Padded(m, width) <==> n == m
  {
    PaddedValue(n, width);
    PaddedValue(m, width);
  }

  lemma DivModOrder(n: nat, m: nat)
    ensures n < m <==> n / 10 < m / 10 || (n / 10 == m / 10 && n % 10 < m % 10)
  {
    assert n == 10 * (n / 10) + n % 10;
    assert m == 10 * (m / 10) + m % 10;
  }

  /** For fields of the same width, string order is numeric order. */
  lemma {:induction false} PaddedOrder(n: nat, m: nat, width: nat)
    requires n < Pow10(width) && m < Pow10(width)
    ensures LexLess(Padded(n, width), Padded(m, width)) <==> n < m
  {
    if width > 0 {
      var pn, pm := Padded(n / 10, width - 1), Padded(m / 10, width - 1);
      var dn, dm := Digit(n % 10), Digit(m % 10);
      LexLessAppend(pn, [dn], pm, [dm]);
      assert LexLess([dn], [dm]) <==> n % 10 < m % 10 by {
        assert [dn][1..] == [] && [dm][1..] == [];
        LexLessIrreflexive([]);
      }
      assert n / 10 < Pow10(width - 1) && m / 10 < Pow10(width - 1);
      PaddedOrder(n / 10, m / 10, width - 1);
      PaddedInjective(n / 10, m / 10, width - 1);
      DivModOrder(n, m);
    }
  }

  /** `strftime("%Y%m%d%H%M%S")`. */
  function Format(t: DateTime): (r: string)
    ensures |r| == 14
    ensures forall i :: 0 <= i < |r| ==> IsDigit(r[i])
  {
    Padded(t.year, 4) + Padded(t.month, 2) + Padded(t.day, 2)
      + Padded(t.hour, 2) + Padded(t.minute, 2) + Padded(t.second, 2)
  }

  /** Reads a fourteen-digit timestamp back into its fields (`strptime` with the same format). */
  function Parse(s: string): (t: DateTime)
    requires |s| == 14 && forall i :: 0 <= i < |s| ==> IsDigit(s[i])
  {
    DateTime(Value(s[0..4]), Value(s[4..6]), Value(s[6..8]), Value(s[8..10]), Value(s[10..12]), Value(s[12..14]))
  }

  /** Six fields of widths 4, 2, 2, 2, 2 and 2 laid end to end can be cut apart again. */
  lemma CutFields(y: string, mo: string, d: string, h: string, mi: string, s: string)
    requires |y| == 4 && |mo| == 2 && |d| == 2 && |h| == 2 && |mi| == 2 && |s| == 2
    ensures var r := y + mo + d + h + mi + s;
      && r[0..4] == y && r[4..6] == mo && r[6..8] == d
      && r[8..10] == h && r[10..12] == mi && r[12..14] == s
  {
  }

  /** Every date-time survives formatting: the timestamp determines the fields. */
  lemma FormatParse(t: DateTime)
    requires Valid(t)
    ensures Parse(Format(t)) == t
  {
    var y, mo, d := Padded(t.year, 4), Padded(t.month, 2), Padded(t.day, 2);
    var h, mi, s := Padded(t.hour, 2), Padded(t.minute, 2), Padded(t.second, 2);
    CutFields(y, mo, d, h, mi, s);
    PaddedValue(t.year, 4);
    PaddedValue(t.month, 2);
    PaddedValue(t.day, 2);
    PaddedValue(t.hour, 2);
    PaddedValue(t.minute, 2);
    PaddedValue(t.second, 2);
  }

  /** Two backups taken in different seconds get different timestamps. */
  lemma FormatInjective(a: DateTime, b: DateTime)
    requires Valid(a) && Valid(b)
    ensures Format(a) == Format(b) <==> a == b
  {
    FormatParse(a);
    FormatParse(b);
  }

  /** Two printed fields of one width that compare and coincide as the numbers `n` and `m` do. */
  predicate FieldsMatch(x: string, y: string, n: nat, m: nat) {
    |x| == |y| && (LexLess(x, y) <==> n < m) && (x == y <==> n == m)
  }

  lemma PaddedMatch(n: nat, m: nat, width: nat)
    requires n < Pow10(width) && m < Pow10(width)
    ensures FieldsMatch(Padded(n, width), Padded(m, width), n, m)
  {
    PaddedOrder(n, m, width);
    PaddedInjective(n, m, width);
  }

  /** A leading field that matches its numbers decides the comparison unless the numbers are equal. */
  lemma FieldOrder(x: string, restX: string, y: string, restY: string, n: nat, m: nat)
    requires FieldsMatch(x, y, n, m)
    ensures LexLess(x + restX, y + restY) <==> n < m || (n == m && LexLess(restX, restY))
  {
    LexLessAppend(x, restX, y, restY);
  }

  /** Six matching fields, laid end to end, compare in chronological order. */
  lemma OrderOfFields(a: DateTime, b: DateTime, ya: string, ma: string, da: string, ha: string, ia: string, sa: string,
                      yb: string, mb: string, db: string, hb: string, ib: string, sb: string)
    requires FieldsMatch(ya, yb, a.year, b.year) && FieldsMatch(ma, mb, a.month, b.month)
    requires FieldsMatch(da, db, a.day, b.day) && FieldsMatch(ha, hb, a.hour, b.hour)
    requires FieldsMatch(ia, ib, a.minute, b.minute) && FieldsMatch(sa, sb, a.second, b.second)
    ensures LexLess(ya + ma + da + ha + ia + sa, yb + mb + db + hb + ib + sb) <==> Before(a, b)
  {
    assert ya + ma + da + ha + ia + sa == ya + (ma + (da + (ha + (ia + sa))));
    assert yb + mb + db + hb + ib + sb == yb + (mb + (db + (hb + (ib + sb))));
    FieldOrder(ya, ma + (da + (ha + (ia + sa))), yb, mb + (db + (hb + (ib + sb))), a.year, b.year);
    FieldOrder(ma, da + (ha + (ia + sa)), mb, db + (hb + (ib + sb)), a.month, b.month);
    FieldOrder(da, ha + (ia + sa), db, hb + (ib + sb), a.day, b.day);
    FieldOrder(ha, ia + sa, hb, ib + sb, a.hour, b.hour);
    FieldOrder(ia, sa, ib, sb, a.minute, b.minute);
  }

  /** Timestamps sort as strings exactly in chronological order. */
  lemma FormatOrder(a: DateTime, b: DateTime)
    requires Valid(a) && Valid(b)
    ensures LexLess(Format(a), Format(b)) <==> Before(a, b)
  {
    assert Pow10(2) == 100 && Pow10(4) == 10000;
    PaddedMatch(a.year, b.year, 4);
    PaddedMatch(a.month, b.month, 2);
    PaddedMatch(a.day, b.day, 2);
    PaddedMatch(a.hour, b.hour, 2);
    PaddedMatch(a.minute, b.minute, 2);
    PaddedMatch(a.second, b.second, 2);
    OrderOfFields(a, b, Padded(a.year, 4), Padded(a.month, 2), Padded(a.day, 2),
      Padded(a.hour, 2), Padded(a.minute, 2), Padded(a.second, 2),
      Padded(b.year, 4), Padded(b.month, 2), Padded(b.day, 2),
      Padded(b.hour, 2), Padded(b.minute, 2), Padded(b.second, 2));
  }

  /** 2024-01-02 03:04:05 prints as 20240102030405. */
  lemma FormatExample()
    ensures Format(DateTime(2024, 1, 2, 3, 4, 5)) == "20240102030405"
  {
    assert "2024" + "01" + "02" + "03" + "04" + "05" == "20240102030405";
    assert Padded(2024, 4) == "2024";
    assert Padded(1, 2) == "01";
    assert Padded(2, 2) == "02";
    assert Padded(3, 2) == "03";
    assert Padded(4, 2) == "04";
    assert Padded(5, 2) == "05";
  }
}
