/** The window of `date_read` texts that the month queries select: from the
    first day of the month up to, but not including, the first day of the
    next month, compared as text. */
module MonthWindow {
  import opened Text

  /** `fmt.Sprintf("%d-%02d-01", year, month)` */
  function MonthStart(year: int, month: int): string
  {
    FormatInt(year) + "-" + Format02(month) + "-01"
  }

  /** The first day of the next month; December rolls over to January of
      the following year. */
  function MonthEnd(year: int, month: int): string
  {
    if month + 1 > 12 then MonthStart(year + 1, 1) else MonthStart(year, month + 1)
  }

  /** `date_read >= start AND date_read < end` */
  predicate InMonth(dateRead: string, year: int, month: int)
  {
    LexLessEq(MonthStart(year, month), dateRead) && LexLess(dateRead, MonthEnd(year, month))
  }

  /** A date the way clients write it: `YYYY-MM-DD`. */
  function IsoDate(y: int, m: int, d: int): string
  {
    FormatInt(y) + "-" + Format02(m) + "-" + Format02(d)
  }

  /** The fixed-width layout of a four-digit-year date. */
  function Fields(y: nat, m: nat, d: nat): string
  {
    PadDigits(y, 4) + ("-" + (PadDigits(m, 2) + ("-" + PadDigits(d, 2))))
  }

  lemma IsoDateFields(y: int, m: int, d: int)
    requires 1000 <= y <= 9999 && 0 <= m < 100 && 0 <= d < 100
    ensures IsoDate(y, m, d) == Fields(y, m, d)
  {
    FormatIntFourDigits(y);
    Format02Padded(m);
    Format02Padded(d);
  }

  lemma MonthStartFields(y: int, m: int)
    requires 1000 <= y <= 9999 && 0 <= m < 100
    ensures MonthStart(y, m) == Fields(y, m, 1)
  {
    FormatIntFourDigits(y);
    Format02Padded(m);
    assert PadDigits(1, 2) == PadDigits(0, 1) + "1";
    assert PadDigits(0, 1) == "0";
  }

  /** Fixed-layout dates sort as (year, month, day) triples. */
  lemma FieldsOrder(y1: nat, m1: nat, d1: nat, y2: nat, m2: nat, d2: nat)
    requires y1 < 10000 && y2 < 10000 && m1 < 100 && m2 < 100 && d1 < 100 && d2 < 100
    ensures LexLess(Fields(y1, m1, d1), Fields(y2, m2, d2))
      <==> y1 < y2 || (y1 == y2 && (m1 < m2 || (m1 == m2 && d1 < d2)))
    ensures Fields(y1, m1, d1) == Fields(y2, m2, d2) <==> y1 == y2 && m1 == m2 && d1 == d2
  {
    assert Pow10(2) == 100 && Pow10(4) == 10000;
    PadDigitsOrder(y1, y2, 4);
    PadDigitsOrder(m1, m2, 2);
    PadDigitsOrder(d1, d2, 2);
    var Y1, Y2 := PadDigits(y1, 4), PadDigits(y2, 4);
    var M1, M2 := PadDigits(m1, 2), PadDigits(m2, 2);
    var D1, D2 := PadDigits(d1, 2), PadDigits(d2, 2);
    LexLessIrreflexive("-");
    LexLessConcat("-", D1, "-", D2);
    ConcatEqual("-", D1, "-", D2);
    LexLessConcat(M1, "-" + D1, M2, "-" + D2);
    ConcatEqual(M1, "-" + D1, M2, "-" + D2);
    LexLessConcat("-", M1 + ("-" + D1), "-", M2 + ("-" + D2));
    ConcatEqual("-", M1 + ("-" + D1), "-", M2 + ("-" + D2));
    LexLessConcat(Y1, "-" + (M1 + ("-" + D1)), Y2, "-" + (M2 + ("-" + D2)));
    ConcatEqual(Y1, "-" + (M1 + ("-" + D1)), Y2, "-" + (M2 + ("-" + D2)));
  }

  /** For dates written `YYYY-MM-DD` with a four-digit year, the text window
      holds a date exactly when the date falls in the requested year and
      month. December of year 9999 is excluded: see the lemma below. */
  lemma MonthWindowExact(year: int, month: int, y: int, m: int, d: int)
    requires 1000 <= year <= 9999 && 1 <= month <= 12 && !(year == 9999 && month == 12)
    requires 1000 <= y <= 9999 && 1 <= m <= 12 && 1 <= d <= 99
    ensures InMonth(IsoDate(y, m, d), year, month) <==> y == year && m == month
  {
    IsoDateFields(y, m, d);
    MonthStartFields(year, month);
    var ey, em := if month == 12 then year + 1 else year, if month == 12 then 1 else month + 1;
    MonthStartFields(ey, em);
    assert MonthEnd(year, month) == Fields(ey, em, 1);
    FieldsOrder(year, month, 1, y, m, d);
    FieldsOrder(y, m, d, ey, em, 1);
  }

  /** A numeral of two or more digits starts with the leading digit of its
      value divided by ten. */
  lemma NatToDecimalHead(n: nat)
    requires n >= 10
    ensures NatToDecimal(n)[0] == NatToDecimal(n / 10)[0]
  {
  }

  lemma FirstCharOf9999()
    ensures FormatInt(9999)[0] == '9'
  {
    NatToDecimalHead(9999);
    NatToDecimalHead(999);
    NatToDecimalHead(99);
  }

  lemma FirstCharOf10000()
    ensures FormatInt(10000)[0] == '1'
  {
    NatToDecimalHead(10000);
    NatToDecimalHead(1000);
    NatToDecimalHead(100);
    NatToDecimalHead(10);
  }

  /** The window for December 9999 ends at "10000-01-01", which sorts before
      every date of that month, so the month selects nothing. */
  lemma December9999SelectsNothing(d: int)
    requires 1 <= d <= 99
    ensures !InMonth(IsoDate(9999, 12, d), 9999, 12)
  {
    var date := IsoDate(9999, 12, d);
    var end := MonthEnd(9999, 12);
    FirstCharOf9999();
    FirstCharOf10000();
    assert date[0] == '9';
    assert end[0] == '1';
  }
}
