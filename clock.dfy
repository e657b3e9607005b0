/**
 * Calendar readings as Python's `datetime` holds them, and the `strftime`
 * formats the downloaders use: `%Y-%m-%d` and `%Y-%m-%d-%H-%M-%S`.
 * Reading the clock is a side effect; the models take the reading as a
 * parameter of this type.
 */
module Clock {
  import opened Common

  datatype DateTime = DateTime(year: int, month: int, day: int, hour: int, minute: int, second: int)
  {
    /** The ranges `datetime.datetime` enforces (MINYEAR = 1, MAXYEAR = 9999). */
    predicate Valid()
    {
      && 1 <= year <= 9999
      && 1 <= month <= 12
      && 1 <= day <= DaysInMonth(year, month)
      && 0 <= hour < 24
      && 0 <= minute < 60
      && 0 <= second < 60
    }
  }

  predicate IsLeapYear(y: int)
  {
    y % 4 == 0 && (y % 100 != 0 || y % 400 == 0)
  }

  function DaysInMonth(y: int, m: int): (d: int)
    requires 1 <= m <= 12
    ensures 28 <= d <= 31
  {
    if m == 2 then (if IsLeapYear(y) then 29 else 28)
    else if m == 4 || m == 6 || m == 9 || m == 11 then 30
    else 31
  }

  /** `%Y`, `%m`, `%d`, `%H`, `%M`, `%S`: zero-padded decimal fields. */
  function Field(n: int, width: nat): (s: string)
    requires 0 <= n < Pow10(width) && width >= 1
    ensures |s| == width && AllDigits(s) && ValueOf(s) == n
  {
    DigitsFit(n, width);
    PaddedRoundTrip(n, width);
    Padded(n, width)
  }

  /** `t.strftime("%Y-%m-%d")`. */
  function DateText(t: DateTime): (s: string)
    requires t.Valid()
    ensures |s| == 10
  {
    Field(t.year, 4) + "-" + Field(t.month, 2) + "-" + Field(t.day, 2)
  }

  /** `a` falls on an earlier calendar day than `b`. */
  predicate DateBefore(a: DateTime, b: DateTime)
  {
    a.year < b.year || (a.year == b.year && (a.month < b.month || (a.month == b.month && a.day < b.day)))
  }

  /** Fields of one width compare as text the way their values compare as numbers. */
  lemma FieldOrder(m: int, n: int, width: nat)
    requires 0 <= m < Pow10(width) && 0 <= n < Pow10(width) && width >= 1
    ensures LexLess(Field(m, width), Field(n, width)) <==> m < n
    ensures Field(m, width) == Field(n, width) <==> m == n
  {
    LexLessDigits(Field(m, width), Field(n, width));
  }

  /** Two texts joined by a dash, whose first parts have one length, compare and agree part by part. */
  lemma DashedOrder(x1: string, x2: string, y1: string, y2: string)
    requires |x1| == |y1|
    ensures LexLess(x1 + "-" + x2, y1 + "-" + y2) <==> LexLess(x1, y1) || (x1 == y1 && LexLess(x2, y2))
    ensures x1 + "-" + x2 == y1 + "-" + y2 <==> x1 == y1 && x2 == y2
  {
    assert x1 + "-" + x2 == x1 + ("-" + x2) && y1 + "-" + y2 == y1 + ("-" + y2);
    LexLessConcat(x1, "-" + x2, y1, "-" + y2);
    LexLessConcat("-", x2, "-", y2);
    LexLessIrreflexive("-");
    if x1 + "-" + x2 == y1 + "-" + y2 {
      assert (x1 + "-" + x2)[..|x1|] == x1 && (y1 + "-" + y2)[..|y1|] == y1;
      assert (x1 + "-" + x2)[|x1| + 1..] == x2 && (y1 + "-" + y2)[|y1| + 1..] == y2;
    }
  }

  /** `%Y-%m-%d` texts are in string order exactly when their days are in calendar order. */
  lemma DateTextOrder(a: DateTime, b: DateTime)
    requires a.Valid() && b.Valid()
    ensures LexLess(DateText(a), DateText(b)) <==> DateBefore(a, b)
    ensures DateText(a) == DateText(b) <==> (a.year == b.year && a.month == b.month && a.day == b.day)
  {
    var ya, ma, da := Field(a.year, 4), Field(a.month, 2), Field(a.day, 2);
    var yb, mb, db := Field(b.year, 4), Field(b.month, 2), Field(b.day, 2);
    FieldOrder(a.year, b.year, 4);
    FieldOrder(a.month, b.month, 2);
    FieldOrder(a.day, b.day, 2);
    DashedOrder(ya + "-" + ma, da, yb + "-" + mb, db);
    DashedOrder(ya, ma, yb, mb);
  }

  /** `t.strftime("%Y-%m-%d-%H-%M-%S")`. */
  function StampText(t: DateTime): (s: string)
    requires t.Valid()
    ensures |s| == 19
  {
    DateText(t) + "-" + Field(t.hour, 2) + "-" + Field(t.minute, 2) + "-" + Field(t.second, 2)
  }

  /** Digits at the given positions, dashes at the others (positions counted from 0). */
  predicate DigitsAndDashes(s: string, dashes: set<int>)
  {
    forall i :: 0 <= i < |s| ==> if i in dashes then s[i] == '-' else IsDigit(s[i])
  }

  /** The regular expression `^\d{4}-\d{2}-\d{2}$`. */
  predicate IsDateText(s: string)
  {
    |s| == 10 && DigitsAndDashes(s, {4, 7})
  }

  /** The regular expression `^\d{4}-\d{2}-\d{2}-\d{2}-\d{2}-\d{2}$`. */
  predicate IsStampText(s: string)
  {
    |s| == 19 && DigitsAndDashes(s, {4, 7, 10, 13, 16})
  }

  lemma DateTextShape(t: DateTime)
    requires t.Valid()
    ensures IsDateText(DateText(t))
    ensures '_' !in DateText(t) && '/' !in DateText(t)
  {
    var s := DateText(t);
    var y, m, d := Field(t.year, 4), Field(t.month, 2), Field(t.day, 2);
    assert s == y + "-" + m + "-" + d;
    forall i | 0 <= i < 10
      ensures if i in {4, 7} then s[i] == '-' else IsDigit(s[i])
    {
      if i < 4 { assert s[i] == y[i]; }
      else if 4 < i < 7 { assert s[i] == m[i - 5]; }
      else if 7 < i { assert s[i] == d[i - 8]; }
    }
  }

  lemma StampTextShape(t: DateTime)
    requires t.Valid()
    ensures IsStampText(StampText(t))
  {
    var s := StampText(t);
    var dt := DateText(t);
    var h, mi, se := Field(t.hour, 2), Field(t.minute, 2), Field(t.second, 2);
    DateTextShape(t);
    assert s == dt + "-" + h + "-" + mi + "-" + se;
    forall i | 0 <= i < 19
      ensures if i in {4, 7, 10, 13, 16} then s[i] == '-' else IsDigit(s[i])
    {
      if i < 10 { assert s[i] == dt[i]; }
      else if 10 < i < 13 { assert s[i] == h[i - 11]; }
      else if 13 < i < 16 { assert s[i] == mi[i - 14]; }
      else if 16 < i { assert s[i] == se[i - 17]; }
    }
  }

  /** Reads back a `%Y-%m-%d-%H-%M-%S` text (what `strptime` does with that format, minus its range checks). */
  function ParseStamp(s: string): (t: Option<DateTime>)
  {
    if !IsStampText(s) then None
    else
      assert AllDigits(s[0..4]) && AllDigits(s[5..7]) && AllDigits(s[8..10]);
      assert AllDigits(s[11..13]) && AllDigits(s[14..16]) && AllDigits(s[17..19]);
      Some(DateTime(ValueOf(s[0..4]), ValueOf(s[5..7]), ValueOf(s[8..10]),
                    ValueOf(s[11..13]), ValueOf(s[14..16]), ValueOf(s[17..19])))
  }

  /** The timestamp text determines the timestamp: formatting then reading back is the identity. */
  lemma StampRoundTrip(t: DateTime)
    requires t.Valid()
    ensures ParseStamp(StampText(t)) == Some(t)
  {
    var s := StampText(t);
    StampTextShape(t);
    var y, m, d := Field(t.year, 4), Field(t.month, 2), Field(t.day, 2);
    var h, mi, se := Field(t.hour, 2), Field(t.minute, 2), Field(t.second, 2);
    assert s == y + "-" + m + "-" + d + "-" + h + "-" + mi + "-" + se;
    assert s[0..4] == y && s[5..7] == m && s[8..10] == d;
    assert s[11..13] == h && s[14..16] == mi && s[17..19] == se;
  }
}
