/**
 The time prefix of stored names: how it is printed, how it is parsed back, and
 why its byte order is the order of time.
 */
module Timestamps {
  import opened Base
  import opened Strings

  /** A UTC civil time. */
  datatype Stamp = Stamp(year: nat, month: nat, day: nat, hour: nat, minute: nat, second: nat, nanos: nat)

  predicate Leap(year: nat) {
    year % 4 == 0 && (year % 100 != 0 || year % 400 == 0)
  }

  function DaysIn(year: nat, month: nat): nat {
    if month == 2 then (if Leap(year) then 29 else 28)
    else if month == 4 || month == 6 || month == 9 || month == 11 then 30
    else 31
  }

  predicate Valid(t: Stamp) {
    && t.year <= 9999 && 1 <= t.month <= 12 && 1 <= t.day <= DaysIn(t.year, t.month)
    && t.hour < 24 && t.minute < 60 && t.second < 60 && t.nanos < 1_000_000_000
  }

  // ------------------------------------------------------------------ decimals

  predicate IsDigit(c: char) {
    '0' <= c <= '9'
  }

  predicate AllDigits(s: string) {
    forall i :: 0 <= i < |s| ==> IsDigit(s[i])
  }

  /** `n` in exactly `width` digits, the higher ones dropped. */
  function Dec(n: nat, width: nat): (s: string)
    ensures |s| == width && AllDigits(s)
  {
    if width == 0 then "" else Dec(n / 10, width - 1) + ['0' + (n % 10) as char]
  }

  function Number(s: string): nat
    requires AllDigits(s)
  {
    if s == "" then 0 else Number(s[..|s| - 1]) * 10 + (s[|s| - 1] - '0') as nat
  }

  function Pow10(width: nat): nat {
    if width == 0 then 1 else 10 * Pow10(width - 1)
  }

  lemma {:induction false} NumberDec(n: nat, width: nat)
    requires n < Pow10(width)
    ensures Number(Dec(n, width)) == n
  {
    if width > 0 {
      NumberDec(n / 10, width - 1);
      assert Dec(n, width)[..width - 1] == Dec(n / 10, width - 1);
    }
  }

  lemma {:induction false} DecNumber(s: string)
    requires AllDigits(s)
    ensures Dec(Number(s), |s|) == s && Number(s) < Pow10(|s|)
  {
    if s != "" {
      var init := s[..|s| - 1];
      DecNumber(init);
      var d := (s[|s| - 1] - '0') as nat;
      assert Number(s) / 10 == Number(init) && Number(s) % 10 == d;
      assert s == init + [s[|s| - 1]];
    }
  }

  /** Digit strings of one width compare like their numbers. */
  lemma {:induction false} DecOrder(a: nat, b: nat, width: nat)
    requires a < Pow10(width) && b < Pow10(width)
    ensures LessEq(Dec(a, width), Dec(b, width)) <==> a <= b
  {
    if width > 0 {
      DecOrder(a / 10, b / 10, width - 1);
      DecOrderStep(a, b, width);
    }
  }

  // The higher digits decide, or else the last one does.
  lemma DecOrderStep(a: nat, b: nat, width: nat)
    requires width > 0 && a < Pow10(width) && b < Pow10(width)
    requires LessEq(Dec(a / 10, width - 1), Dec(b / 10, width - 1)) <==> a / 10 <= b / 10
    ensures LessEq(Dec(a, width), Dec(b, width)) <==> a <= b
  {
    hide Dec, Number, LessEq;
    var p, q := a / 10, b / 10;
    NumberDec(p, width - 1);
    NumberDec(q, width - 1);
    DigitOrder(a % 10, b % 10);
    LastDigit(a, width);
    LastDigit(b, width);
    LessEqAppend(Dec(p, width - 1), Dec(q, width - 1), Dec(a % 10, 1), Dec(b % 10, 1));
  }

  lemma DigitOrder(a: nat, b: nat)
    requires a < 10 && b < 10
    ensures LessEq(Dec(a, 1), Dec(b, 1)) <==> a <= b
  {
  }

  lemma LastDigit(n: nat, width: nat)
    requires width > 0
    ensures Dec(n, width) == Dec(n / 10, width - 1) + Dec(n % 10, 1)
  {
  }

  // ------------------------------------------------------- printing and parsing

  /** The layout `20060102T150405Z`. */
  function Print(t: Stamp): (s: string)
    ensures |s| == 16
  {
    Dec(t.year, 4) + Dec(t.month, 2) + Dec(t.day, 2) + "T" + Dec(t.hour, 2) + Dec(t.minute, 2) + Dec(t.second, 2) + "Z"
  }

  /** The number of leading digits. */
  function DigitRun(s: string): (n: nat)
    ensures n <= |s| && AllDigits(s[..n]) && (n < |s| ==> !IsDigit(s[n]))
  {
    if s == "" || !IsDigit(s[0]) then 0
    else
      var n := 1 + DigitRun(s[1..]);
      assert s[..n] == [s[0]] + s[1..][..n - 1];
      n
  }

  // A decimal fraction after the seconds, which the library accepts although the
  // layout has none: its length, 0 if there is none.
  function FractionLength(s: string): (n: nat)
    ensures n <= |s| && (n > 0 ==> AllDigits(s[1..n]))
  {
    if |s| >= 2 && (s[0] == '.' || s[0] == ',') && IsDigit(s[1]) then
      var n := 1 + DigitRun(s[1..]);
      assert s[1..n] == s[1..][..n - 1];
      n
    else 0
  }

  // Nanoseconds from at most nine fraction digits.
  function Nanos(digits: string): (n: nat)
    requires AllDigits(digits)
    ensures n < 1_000_000_000
  {
    Scaled(digits[..Min(9, |digits|)])
  }

  function Scaled(kept: string): (n: nat)
    requires AllDigits(kept) && |kept| <= 9
    ensures n < 1_000_000_000
  {
    DecNumber(kept);
    ScaleFits(Number(kept), |kept|);
    Number(kept) * Pow10(9 - |kept|)
  }

  lemma ScaleFits(n: nat, width: nat)
    requires width <= 9 && n < Pow10(width)
    ensures 0 <= n * Pow10(9 - width) < 1_000_000_000
  {
    PowSplit(width, 9 - width);
    assert Pow10(9) == 1_000_000_000 by {
      assert Pow10(6) == 1_000_000;
    }
    MulLess(n, Pow10(width), Pow10(9 - width));
  }

  lemma MulLess(a: nat, b: nat, c: nat)
    requires a < b && c > 0
    ensures 0 <= a * c < b * c
  {
  }

  lemma {:induction false} PowSplit(a: nat, b: nat)
    ensures Pow10(a) * Pow10(b) == Pow10(a + b) && Pow10(b) > 0
  {
    if a == 0 {
      PowPositive(b);
    } else {
      PowSplit(a - 1, b);
      assert 10 * Pow10(a - 1) * Pow10(b) == 10 * (Pow10(a - 1) * Pow10(b));
    }
  }

  lemma {:induction false} PowPositive(b: nat)
    ensures Pow10(b) > 0
  {
    if b > 0 {
      PowPositive(b - 1);
    }
  }

  // Eight digits, the letter, six digits.
  predicate Shape(p: string) {
    |p| == 15 && AllDigits(p[..8]) && p[8] == 'T' && AllDigits(p[9..])
  }

  lemma FieldsAreDigits(p: string)
    requires Shape(p)
    ensures AllDigits(p[..4]) && AllDigits(p[4..6]) && AllDigits(p[6..8])
    ensures AllDigits(p[9..11]) && AllDigits(p[11..13]) && AllDigits(p[13..])
  {
    assert forall i :: 0 <= i < 8 ==> p[..8][i] == p[i];
    assert forall i :: 9 <= i < 15 ==> p[9..][i - 9] == p[i];
  }

  // The numbers in those places.
  function Fields(p: string): (t: Stamp)
    requires Shape(p)
    ensures t.nanos == 0
  {
    FieldsAreDigits(p);
    Stamp(Number(p[..4]), Number(p[4..6]), Number(p[6..8]), Number(p[9..11]), Number(p[11..13]), Number(p[13..]), 0)
  }

  /** `time.Parse` with that layout. */
  function Parse(s: string): Option<Stamp> {
    if |s| < 16 || !Shape(s[..15]) then None
    else
      var rest := s[15..];
      var f := FractionLength(rest);
      var t := Fields(s[..15]).(nanos := if f == 0 then 0 else Nanos(rest[1..f]));
      if rest[f..] == "Z" && Valid(t) then Some(t) else None
  }

  /** The time a stored name starts with: the part before the first underscore, parsed. */
  function ParseTimestamp(name: string): Option<int> {
    var i := Index(name, '_');
    if i == |name| then None
    else
      var t := Parse(name[..i]);
      if t.Some? then Some(Instant(t.value)) else None
  }

  // -------------------------------------------------------------- linear time

  function DaysBeforeYear(year: nat): nat {
    if year == 0 then 0 else DaysBeforeYear(year - 1) + (if Leap(year - 1) then 366 else 365)
  }

  function DaysBeforeMonth(year: nat, month: nat): nat {
    if month <= 1 then 0 else DaysBeforeMonth(year, month - 1) + DaysIn(year, month - 1)
  }

  function DayNumber(t: Stamp): nat {
    DaysBeforeYear(t.year) + DaysBeforeMonth(t.year, t.month) + t.day
  }

  function SecondOfDay(t: Stamp): nat {
    t.hour * 3600 + t.minute * 60 + t.second
  }

  /** Nanoseconds on the proleptic Gregorian time line. */
  function Instant(t: Stamp): int {
    (DayNumber(t) * 86400 + SecondOfDay(t)) * 1_000_000_000 + t.nanos
  }

  // =============================================================== the results

  lemma PrintedFields(t: Stamp)
    ensures var p := Print(t)[..15];
            && Print(t)[15..] == "Z" && Shape(p)
            && p[..4] == Dec(t.year, 4) && p[4..6] == Dec(t.month, 2) && p[6..8] == Dec(t.day, 2)
            && p[9..11] == Dec(t.hour, 2) && p[11..13] == Dec(t.minute, 2) && p[13..] == Dec(t.second, 2)
  {
    hide Dec;
    var p := Print(t)[..15];
    assert p[..8] == Dec(t.year, 4) + Dec(t.month, 2) + Dec(t.day, 2);
    assert p[9..] == Dec(t.hour, 2) + Dec(t.minute, 2) + Dec(t.second, 2);
  }

  // The fields of a printed second are the second.
  lemma FieldsPrinted(t: Stamp)
    requires Valid(t)
    ensures Shape(Print(t)[..15]) && Fields(Print(t)[..15]) == t.(nanos := 0)
  {
    hide Dec, Number, Print;
    PrintedFields(t);
    NumberDec(t.year, 4);
    NumberDec(t.month, 2);
    NumberDec(t.day, 2);
    NumberDec(t.hour, 2);
    NumberDec(t.minute, 2);
    NumberDec(t.second, 2);
  }

  // Only a printed second has its fields.
  lemma PrintedFieldsOnly(p: string)
    requires Shape(p)
    ensures Print(Fields(p)) == p + "Z"
  {
    hide Dec, Number;
    FieldsAreDigits(p);
    DecNumber(p[..4]);
    DecNumber(p[4..6]);
    DecNumber(p[6..8]);
    DecNumber(p[9..11]);
    DecNumber(p[11..13]);
    DecNumber(p[13..]);
    assert p == p[..4] + p[4..6] + p[6..8] + "T" + p[9..11] + p[11..13] + p[13..];
  }

  /** Every whole second of the years 0 to 9999 survives printing and parsing. */
  lemma PrintParse(t: Stamp)
    requires Valid(t) && t.nanos == 0
    ensures Parse(Print(t)) == Some(t)
  {
    hide Fields, Print, Shape;
    PrintedFields(t);
    FieldsPrinted(t);
    assert FractionLength("Z") == 0;
  }

  /** Only printed stamps parse, as far as the layout's own 16 characters go. */
  lemma ParsePrint(s: string)
    requires |s| == 16 && Parse(s).Some?
    ensures Parse(s).value.nanos == 0 && s == Print(Parse(s).value)
  {
    hide Fields, Print, Shape;
    PrintedFieldsOnly(s[..15]);
    assert s == s[..15] + s[15..];
  }

  // Nothing, or a point or comma and at least one digit.
  predicate IsFraction(f: string) {
    f == "" || (|f| >= 2 && (f[0] == '.' || f[0] == ',') && AllDigits(f[1..]))
  }

  lemma {:induction false} DigitRunStops(digits: string, end: char)
    requires AllDigits(digits) && !IsDigit(end)
    ensures DigitRun(digits + [end]) == |digits|
  {
    if digits != "" {
      assert (digits + [end])[1..] == digits[1..] + [end];
      DigitRunStops(digits[1..], end);
    }
  }

  lemma FractionOf(f: string)
    requires IsFraction(f)
    ensures FractionLength(f + "Z") == |f|
  {
    if f != "" {
      DigitRunStops(f[1..], 'Z');
      assert (f + "Z")[1..] == f[1..] + ['Z'];
      assert IsDigit(f[1..][0]);
    }
  }

  /**
   What the parser accepts, exactly: a printed whole second, possibly with a
   decimal fraction before the final letter.  The second is read back as printed.
   */
  lemma ParseExactly(s: string)
    ensures Parse(s).Some? <==>
            exists t: Stamp, f: string :: Valid(t) && t.nanos == 0 && IsFraction(f) && s == Print(t)[..15] + f + "Z"
  {
    hide Fields, Print, Shape, IsFraction, Nanos;
    if Parse(s).Some? {
      ParsedIsPrinted(s);
    }
    if t: Stamp, f: string :| Valid(t) && t.nanos == 0 && IsFraction(f) && s == Print(t)[..15] + f + "Z" {
      FractionParses(t, f);
    }
  }

  lemma ParsedIsPrinted(s: string)
    requires Parse(s).Some?
    ensures var t, f := Fields(s[..15]), s[15..][..FractionLength(s[15..])];
            Valid(t) && t.nanos == 0 && IsFraction(f) && s == Print(t)[..15] + f + "Z"
  {
    hide Fields, Print, Shape, IsFraction, Nanos;
    var f := s[15..][..FractionLength(s[15..])];
    PrintedFieldsOnly(s[..15]);
    FractionIs(s[15..]);
    assert s == s[..15] + s[15..] && s[15..] == f + "Z";
  }

  lemma FractionIs(rest: string)
    ensures IsFraction(rest[..FractionLength(rest)])
  {
    var n := FractionLength(rest);
    assert n > 0 ==> rest[..n][1..] == rest[1..n];
  }

  /** A fraction only adds nanoseconds. */
  lemma FractionParses(t: Stamp, f: string)
    requires Valid(t) && t.nanos == 0 && IsFraction(f)
    ensures Parse(Print(t)[..15] + f + "Z") == Some(t.(nanos := if f == "" then 0 else Nanos(f[1..])))
  {
    hide Fields, Print, Shape, IsFraction, FractionLength, Nanos;
    var s := Print(t)[..15] + f + "Z";
    FieldsPrinted(t);
    FractionOf(f);
    assert s[..15] == Print(t)[..15] && s[15..] == f + "Z";
    assert (f + "Z")[|f|..] == "Z" && (|f| > 0 ==> (f + "Z")[1..|f|] == f[1..]);
    assert |f| == 0 <==> f == "";
  }

  lemma NoUnderscore(t: Stamp)
    ensures '_' !in Print(t)
  {
  }

  function StoredName(t: Stamp, filename: string): string {
    Print(t) + "_" + filename
  }

  /** The time read back from a stored name is the time it was stored under, whatever the file is called. */
  lemma NameRoundTrip(t: Stamp, filename: string)
    requires Valid(t) && t.nanos == 0
    ensures ParseTimestamp(StoredName(t, filename)) == Some(Instant(t))
  {
    NoUnderscore(t);
    IndexAfter(Print(t), '_', filename);
    PrintParse(t);
    assert StoredName(t, filename)[..16] == Print(t);
  }

  // ------------------------------------------------------ the print and the calendar

  function DigitAt(s: string, i: nat): int
    requires i < |s|
  {
    s[i] as int - 48
  }

  lemma DecTwo(n: nat)
    requires n < 100
    ensures var s := Dec(n, 2); n == 10 * DigitAt(s, 0) + DigitAt(s, 1)
  {
    assert Dec(n / 10, 1) == Dec(n / 10 / 10, 0) + ['0' + (n / 10 % 10) as char];
  }

  lemma DecFour(n: nat)
    requires n < 10000
    ensures var s := Dec(n, 4);
            n == 1000 * DigitAt(s, 0) + 100 * DigitAt(s, 1) + 10 * DigitAt(s, 2) + DigitAt(s, 3)
  {
    hide Dec;
    DecLast(n, 4);
    DecLast(n / 10, 3);
    DecTwo(n / 10 / 10);
  }

  lemma DecLast(n: nat, width: nat)
    requires width > 0
    ensures Dec(n, width) == Dec(n / 10, width - 1) + ['0' + (n % 10) as char]
    ensures DigitAt(Dec(n, width), width - 1) == n % 10
  {
  }

  /** Where the print has what: year, month, day, the letter T, hour, minute, second, the letter Z. */
  lemma PrintExactly(t: Stamp)
    requires Valid(t)
    ensures var s := Print(t);
            && s[8] == 'T' && s[15] == 'Z' && AllDigits(s[..8]) && AllDigits(s[9..15])
            && t.year == 1000 * DigitAt(s, 0) + 100 * DigitAt(s, 1) + 10 * DigitAt(s, 2) + DigitAt(s, 3)
            && t.month == 10 * DigitAt(s, 4) + DigitAt(s, 5) && t.day == 10 * DigitAt(s, 6) + DigitAt(s, 7)
            && t.hour == 10 * DigitAt(s, 9) + DigitAt(s, 10) && t.minute == 10 * DigitAt(s, 11) + DigitAt(s, 12)
            && t.second == 10 * DigitAt(s, 13) + DigitAt(s, 14)
  {
    hide Dec, Print;
    PrintedFields(t);
    DecFour(t.year);
    DecTwo(t.month);
    DecTwo(t.day);
    DecTwo(t.hour);
    DecTwo(t.minute);
    DecTwo(t.second);
    var s, p := Print(t), Print(t)[..15];
    assert s == p + s[15..];
    assert forall i :: 0 <= i < 4 ==> s[i] == p[..4][i];
    assert forall i :: 0 <= i < 2 ==> s[4 + i] == p[4..6][i] && s[6 + i] == p[6..8][i];
    assert forall i :: 0 <= i < 2 ==> s[9 + i] == p[9..11][i] && s[11 + i] == p[11..13][i] && s[13 + i] == p[13..][i];
    assert p[..8] == s[..8] && p[9..] == s[9..15];
  }

  /** The stored name carries the print, an underscore and the name of the key. */
  lemma StoredNameExactly(t: Stamp, filename: string)
    ensures var s := StoredName(t, filename); s[..16] == Print(t) && s[16] == '_' && s[17..] == filename
  {
  }

  /** The time of a name is that of the part before its first underscore; a name without one has none. */
  lemma ParseTimestampExactly(prefix: string, rest: string)
    requires '_' !in prefix
    ensures ParseTimestamp(prefix) == None
    ensures ParseTimestamp(prefix + "_" + rest) ==
            if Parse(prefix).Some? then Some(Instant(Parse(prefix).value)) else None
  {
    hide Parse, Instant;
    var i := Index(prefix, '_');
    assert i == |prefix|;
    IndexAfter(prefix, '_', rest);
    assert (prefix + "_" + rest)[..|prefix|] == prefix;
  }

  /** What a fraction is worth: nine digits are nanoseconds, missing ones are zeros, further ones are dropped. */
  lemma NanosExactly(digits: string)
    requires AllDigits(digits)
    ensures |digits| >= 9 ==> Nanos(digits) == Number(digits[..9])
    ensures |digits| < 9 ==> Nanos(digits) == Nanos(digits + "0")
  {
    hide Number, AllDigits, Pow10;
    if |digits| >= 9 {
      assert Pow10(0) == 1 by {
        OnePower();
      }
    } else {
      var more := digits + "0";
      assert more[..|more|] == more && digits[..|digits|] == digits;
      NumberTimesTen(digits);
      PowerStep(9 - |digits|);
      TimesTen(Number(digits), Pow10(9 - |more|));
    }
  }

  lemma OnePower()
    ensures Pow10(0) == 1
  {
  }

  lemma PowerStep(n: nat)
    requires n > 0
    ensures Pow10(n) == 10 * Pow10(n - 1)
  {
  }

  lemma TimesTen(n: nat, p: nat)
    ensures n * 10 * p == n * (10 * p)
  {
  }

  lemma NumberTimesTen(digits: string)
    requires AllDigits(digits)
    ensures AllDigits(digits + "0") && Number(digits + "0") == Number(digits) * 10
  {
    assert (digits + "0")[..|digits|] == digits;
  }

  const MONTH_LENGTHS: seq<nat> := [31, 28, 31, 30, 31, 30, 31, 31, 30, 31, 30, 31]

  // By the calendar's own table.
  predicate LastOfMonth(t: Stamp)
    requires 1 <= t.month <= 12
  {
    var leapDay := t.month == 2 && (t.year % 400 == 0 || (t.year % 4 == 0 && t.year % 100 != 0));
    t.day == MONTH_LENGTHS[t.month - 1] + if leapDay then 1 else 0
  }

  /** One second later on the clock and in the calendar. */
  function Tick(t: Stamp): Stamp
    requires 1 <= t.month <= 12
  {
    if t.second < 59 then t.(second := t.second + 1)
    else if t.minute < 59 then t.(minute := t.minute + 1, second := 0)
    else if t.hour < 23 then t.(hour := t.hour + 1, minute := 0, second := 0)
    else
      var midnight := t.(hour := 0, minute := 0, second := 0);
      if !LastOfMonth(t) then midnight.(day := t.day + 1)
      else if t.month < 12 then midnight.(month := t.month + 1, day := 1)
      else midnight.(year := t.year + 1, month := 1, day := 1)
  }

  lemma MonthTable(t: Stamp)
    requires 1 <= t.month <= 12
    ensures LastOfMonth(t) <==> t.day == DaysIn(t.year, t.month)
  {
    hide Leap;
    LeapRule(t.year);
  }

  lemma LeapRule(year: nat)
    ensures Leap(year) <==> year % 400 == 0 || (year % 4 == 0 && year % 100 != 0)
  {
    if year % 400 == 0 {
      assert year == 4 * (100 * (year / 400));
    }
  }

  lemma YearLength(year: nat)
    ensures DaysBeforeMonth(year, 12) + 31 == if Leap(year) then 366 else 365
  {
    hide Leap;
    assert DaysBeforeMonth(year, 2) == 31;
    assert DaysBeforeMonth(year, 4) == (if Leap(year) then 91 else 90);
    assert DaysBeforeMonth(year, 6) == DaysBeforeMonth(year, 4) + 61;
    assert DaysBeforeMonth(year, 8) == DaysBeforeMonth(year, 6) + 61;
    assert DaysBeforeMonth(year, 10) == DaysBeforeMonth(year, 8) + 61;
  }

  /** The time line runs with the clock: one tick is a second, and from the first one all valid times follow. */
  lemma TickIsOneSecond(t: Stamp)
    requires Valid(t) && Tick(t).year <= 9999
    ensures Valid(Tick(t)) && Instant(Tick(t)) == Instant(t) + 1_000_000_000
    ensures Instant(t) == Instant(t.(nanos := 0)) + t.nanos
    ensures Valid(Stamp(0, 1, 1, 0, 0, 0, 0))
  {
    MonthTable(t);
    YearLength(t.year);
    hide LastOfMonth;
    var u := Tick(t);
    if t.second == 59 && t.minute == 59 && t.hour == 23 {
      assert DayNumber(u) == DayNumber(t) + 1;
    }
  }

  lemma {:induction false} MonthsFit(year: nat, m: nat, n: nat)
    requires 1 <= m < n <= 12
    ensures DaysBeforeMonth(year, m) + DaysIn(year, m) <= DaysBeforeMonth(year, n)
  {
    if m < n - 1 {
      MonthsFit(year, m, n - 1);
    }
  }

  lemma MonthsInYear(year: nat, month: nat)
    requires 1 <= month <= 12
    ensures DaysBeforeMonth(year, month) + DaysIn(year, month) <= (if Leap(year) then 366 else 365)
  {
    if month < 12 {
      MonthsFit(year, month, 12);
    }
    assert DaysBeforeMonth(year, 7) == (if Leap(year) then 182 else 181) by {
      assert DaysBeforeMonth(year, 4) == (if Leap(year) then 91 else 90);
    }
    assert DaysBeforeMonth(year, 10) == DaysBeforeMonth(year, 7) + 92;
  }

  lemma {:induction false} YearsFit(y: nat, z: nat)
    requires y < z
    ensures DaysBeforeYear(y) + (if Leap(y) then 366 else 365) <= DaysBeforeYear(z)
  {
    if y < z - 1 {
      YearsFit(y, z - 1);
    }
  }

  // Order of times by their fields, the most significant first.
  predicate Before(a: Stamp, b: Stamp) {
    if a.year != b.year then a.year < b.year
    else if a.month != b.month then a.month < b.month
    else if a.day != b.day then a.day < b.day
    else if a.hour != b.hour then a.hour < b.hour
    else if a.minute != b.minute then a.minute < b.minute
    else if a.second != b.second then a.second < b.second
    else a.nanos < b.nanos
  }

  lemma BeforeIsEarlier(a: Stamp, b: Stamp)
    requires Valid(a) && Valid(b) && Before(a, b)
    ensures Instant(a) < Instant(b)
  {
    MonthsInYear(a.year, a.month);
    if a.year < b.year {
      YearsFit(a.year, b.year);
    } else if a.month < b.month {
      MonthsFit(a.year, a.month, b.month);
    }
    assert DayNumber(a) < DayNumber(b) || (DayNumber(a) == DayNumber(b) && SecondOfDay(a) <= SecondOfDay(b));
  }

  /** Printed stamps compare as strings exactly as they compare in time. */
  lemma PrintOrder(a: Stamp, b: Stamp)
    requires Valid(a) && Valid(b) && a.nanos == b.nanos == 0
    ensures LessEq(Print(a), Print(b)) <==> Instant(a) <= Instant(b)
  {
    PrintOrderFields(a, b);
    if Before(a, b) {
      BeforeIsEarlier(a, b);
    } else if Before(b, a) {
      BeforeIsEarlier(b, a);
    } else {
      assert a == b;
    }
  }

  lemma PrintOrderFields(a: Stamp, b: Stamp)
    requires Valid(a) && Valid(b) && a.nanos == b.nanos == 0
    ensures LessEq(Print(a), Print(b)) <==> a == b || Before(a, b)
  {
    hide Dec, LessEq;
    assert Pow10(4) == 10000 && Pow10(2) == 100;
    var a6, b6 := Dec(a.second, 2) + "Z", Dec(b.second, 2) + "Z";
    var a5, b5 := Dec(a.minute, 2) + a6, Dec(b.minute, 2) + b6;
    var a4, b4 := Dec(a.hour, 2) + a5, Dec(b.hour, 2) + b5;
    var a3, b3 := Dec(a.day, 2) + ("T" + a4), Dec(b.day, 2) + ("T" + b4);
    var a2, b2 := Dec(a.month, 2) + a3, Dec(b.month, 2) + b3;
    assert Print(a) == Dec(a.year, 4) + a2 && Print(b) == Dec(b.year, 4) + b2;
    FieldOrder(a.year, b.year, 4, a2, b2);
    FieldOrder(a.month, b.month, 2, a3, b3);
    FieldOrder(a.day, b.day, 2, "T" + a4, "T" + b4);
    LessEqAppend("T", "T", a4, b4);
    FieldOrder(a.hour, b.hour, 2, a5, b5);
    FieldOrder(a.minute, b.minute, 2, a6, b6);
    FieldOrder(a.second, b.second, 2, "Z", "Z");
    LessEqTotal("Z", "Z");
  }

  lemma FieldOrder(a: nat, b: nat, width: nat, x: string, y: string)
    requires a < Pow10(width) && b < Pow10(width)
    ensures LessEq(Dec(a, width) + x, Dec(b, width) + y) <==> (if a == b then LessEq(x, y) else a < b)
  {
    LessEqAppend(Dec(a, width), Dec(b, width), x, y);
    DecOrder(a, b, width);
    NumberDec(a, width);
    NumberDec(b, width);
  }

  /** Stored names of different seconds sort by time, whatever follows the prefix. */
  lemma NameOrder(a: Stamp, b: Stamp, f: string, g: string)
    requires Valid(a) && Valid(b) && a.nanos == b.nanos == 0 && a != b
    ensures LessEq(StoredName(a, f), StoredName(b, g)) <==> Instant(a) < Instant(b)
  {
    hide Print, LessEq, Instant, Parse;
    PrintOrder(a, b);
    PrintOrder(b, a);
    LessEqTotal(Print(a), Print(b));
    PrintParse(a);
    PrintParse(b);
    assert StoredName(a, f) == Print(a) + ("_" + f) && StoredName(b, g) == Print(b) + ("_" + g);
    LessEqAppend(Print(a), Print(b), "_" + f, "_" + g);
  }
}
