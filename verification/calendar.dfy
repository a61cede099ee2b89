/**
 * The two names the engine derives from today's date: the month key
 * (`strftime("%Y-%m")`, main.py:19-20) stored in the state map, and the
 * backup folder name (`"backup_" + strftime("%Y-%m-%d")`, main.py:22-23).
 * The clock is not modelled: the date is a parameter.
 */
module Calendar {
  import opened Wrappers

  /** The date part of `datetime.datetime.now()`. */
  datatype Date = Date(year: int, month: int, day: int) {
    /** The dates `datetime` can represent. */
    predicate Valid() {
      1 <= year <= 9999 && 1 <= month <= 12 && 1 <= day <= DaysInMonth(year, month)
    }
  }

  predicate IsLeapYear(y: int) {
    y % 4 == 0 && (y % 100 != 0 || y % 400 == 0)
  }

  function DaysInMonth(y: int, m: int): int {
    if m == 2 then (if IsLeapYear(y) then 29 else 28)
    else if m == 4 || m == 6 || m == 9 || m == 11 then 30
    else 31
  }

  function Pow10(n: nat): nat {
    if n == 0 then 1 else 10 * Pow10(n - 1)
  }

  predicate IsDigit(c: char) {
    '0' <= c <= '9'
  }

  predicate AllDigits(s: string) {
    forall i :: 0 <= i < |s| ==> IsDigit(s[i])
  }

  function DigitChar(n: int): (c: char)
    requires 0 <= n < 10
    ensures IsDigit(c)
  {
    ('0' as int + n) as char
  }

  function DigitValue(c: char): int {
    c as int - '0' as int
  }

  /**
   * The decimal digits of `n`, left-padded with zeros to exactly `width`
   * characters: what `strftime` prints for `%Y` (width 4), `%m` and `%d`
   * (width 2).
   */
  function ZeroPad(n: nat, width: nat): (s: string)
    requires n < Pow10(width)
    ensures |s| == width
    ensures AllDigits(s)
  {
    if width == 0 then ""
    else
      var init := ZeroPad(n / 10, width - 1);
      var s := init + [DigitChar(n % 10)];
      assert forall i :: 0 <= i < |init| ==> s[i] == init[i];
      s
  }

  /** Reads a string of decimal digits back as a number. */
  function DecimalValue(s: string): int {
    if s == [] then 0 else 10 * DecimalValue(s[..|s| - 1]) + DigitValue(s[|s| - 1])
  }

  /** Zero-padding loses nothing: the padded digits read back as `n`. */
  lemma {:induction false} DecimalValueOfZeroPad(n: nat, width: nat)
    requires n < Pow10(width)
    ensures DecimalValue(ZeroPad(n, width)) == n
  {
    if width > 0 {
      var s := ZeroPad(n, width);
      assert s[..|s| - 1] == ZeroPad(n / 10, width - 1);
      DecimalValueOfZeroPad(n / 10, width - 1);
    }
  }

  /** Conversely, a string of digits is the zero-padded form of its own value. */
  lemma {:induction false} ZeroPadOfDecimalValue(s: string)
    requires AllDigits(s)
    ensures 0 <= DecimalValue(s) < Pow10(|s|)
    ensures ZeroPad(DecimalValue(s), |s|) == s
  {
    if s != [] {
      var init, last := s[..|s| - 1], s[|s| - 1];
      ZeroPadOfDecimalValue(init);
      var a, b := DecimalValue(init), DigitValue(last);
      var n := DecimalValue(s);
      assert n == 10 * a + b && 0 <= b < 10;
      assert Pow10(|s|) == 10 * Pow10(|init|);
      assert n < Pow10(|s|);
      assert n / 10 == a && n % 10 == b;
      assert DigitChar(b) == last;
      assert ZeroPad(n, |s|) == ZeroPad(a, |init|) + [last];
      assert s == init + [last];
    }
  }

  /** `strftime("%Y-%m")`: the key of the calendar month (main.py:20). */
  function MonthKey(d: Date): (k: string)
    requires d.Valid()
    ensures |k| == 7 && k[4] == '-'
  {
    ZeroPad(d.year, 4) + "-" + ZeroPad(d.month, 2)
  }

  /** `strftime('%Y-%m-%d')` (main.py:23). */
  function DateStamp(d: Date): (s: string)
    requires d.Valid()
    ensures |s| == 10
  {
    ZeroPad(d.year, 4) + "-" + ZeroPad(d.month, 2) + "-" + ZeroPad(d.day, 2)
  }

  const BackupPrefix := "backup_"

  /** The name of today's backup folder (main.py:23). */
  function BackupFolderName(d: Date): (name: string)
    requires d.Valid()
    ensures |name| == 17
  {
    BackupPrefix + DateStamp(d)
  }

  /** Inverse of `MonthKey`: the year and month a well-formed key names. */
  function ParseMonthKey(k: string): Option<(int, int)> {
    if |k| == 7 && AllDigits(k[..4]) && k[4] == '-' && AllDigits(k[5..]) then
      Some((DecimalValue(k[..4]), DecimalValue(k[5..])))
    else
      None
  }

  /** Inverse of `DateStamp`: the date a well-formed stamp names. */
  function ParseDateStamp(s: string): Option<Date> {
    if |s| == 10 && s[7] == '-' && AllDigits(s[8..]) then
      match ParseMonthKey(s[..7])
      case None => None
      case Some((y, m)) =>
        var d := Date(y, m, DecimalValue(s[8..]));
        if d.Valid() then Some(d) else None
    else
      None
  }

  /** Inverse of `BackupFolderName`: the date a well-formed folder name names. */
  function ParseBackupFolderName(name: string): Option<Date> {
    if |name| >= |BackupPrefix| && name[..|BackupPrefix|] == BackupPrefix then
      ParseDateStamp(name[|BackupPrefix|..])
    else
      None
  }

  /** The month key of a date reads back as that date's year and month. */
  lemma MonthKeyRoundTrip(d: Date)
    requires d.Valid()
    ensures ParseMonthKey(MonthKey(d)) == Some((d.year, d.month))
  {
    var k := MonthKey(d);
    assert k[..4] == ZeroPad(d.year, 4);
    assert k[5..] == ZeroPad(d.month, 2);
    DecimalValueOfZeroPad(d.year, 4);
    DecimalValueOfZeroPad(d.month, 2);
  }

  /**
   * The parser accepts exactly one key per month: a string reads as the
   * year and month of `d` if and only if it is `d`'s month key.
   */
  lemma ParseMonthKeyExactly(k: string, d: Date)
    requires d.Valid()
    ensures ParseMonthKey(k) == Some((d.year, d.month)) <==> k == MonthKey(d)
  {
    MonthKeyRoundTrip(d);
    if ParseMonthKey(k) == Some((d.year, d.month)) {
      ZeroPadOfDecimalValue(k[..4]);
      ZeroPadOfDecimalValue(k[5..]);
      assert k == k[..4] + "-" + k[5..];
    }
  }

  /** Two dates share a month key exactly when they fall in the same calendar month. */
  lemma MonthKeyIdentifiesMonth(a: Date, b: Date)
    requires a.Valid() && b.Valid()
    ensures MonthKey(a) == MonthKey(b) <==> a.year == b.year && a.month == b.month
  {
    MonthKeyRoundTrip(a);
    MonthKeyRoundTrip(b);
  }

  /** The day stamp is the month key, a dash and the zero-padded day. */
  lemma DateStampExtendsMonthKey(d: Date)
    requires d.Valid()
    ensures DateStamp(d) == MonthKey(d) + "-" + ZeroPad(d.day, 2)
  {
  }

  /** A day stamp reads back as the date it was made from. */
  lemma DateStampRoundTrip(d: Date)
    requires d.Valid()
    ensures ParseDateStamp(DateStamp(d)) == Some(d)
  {
    var s := DateStamp(d);
    DateStampExtendsMonthKey(d);
    assert s[..7] == MonthKey(d);
    assert s[8..] == ZeroPad(d.day, 2);
    MonthKeyRoundTrip(d);
    DecimalValueOfZeroPad(d.day, 2);
  }

  /** A backup folder name reads back as the date it was made from. */
  lemma BackupFolderNameRoundTrip(d: Date)
    requires d.Valid()
    ensures ParseBackupFolderName(BackupFolderName(d)) == Some(d)
  {
    var name := BackupFolderName(d);
    assert name[..|BackupPrefix|] == BackupPrefix;
    assert name[|BackupPrefix|..] == DateStamp(d);
    DateStampRoundTrip(d);
  }

  /** Distinct days get distinct backup folders. */
  lemma BackupFolderNameIdentifiesDay(a: Date, b: Date)
    requires a.Valid() && b.Valid()
    ensures BackupFolderName(a) == BackupFolderName(b) <==> a == b
  {
    BackupFolderNameRoundTrip(a);
    BackupFolderNameRoundTrip(b);
  }

  /**
   * The folder name is "backup_" followed by the month key of the same date,
   * a dash and the day: the two `strftime` formats agree on the year and month.
   */
  lemma BackupFolderNameExtendsMonthKey(d: Date)
    requires d.Valid()
    ensures var name := BackupFolderName(d);
      name[..7] == BackupPrefix && name[7..14] == MonthKey(d) && name[14] == '-'
      && ParseBackupFolderName(name).Some? && ParseBackupFolderName(name).value.day == d.day
  {
    BackupFolderNameRoundTrip(d);
    DateStampExtendsMonthKey(d);
    var name := BackupFolderName(d);
    assert name[7..] == DateStamp(d);
    assert name[7..14] == DateStamp(d)[..7];
  }
}
