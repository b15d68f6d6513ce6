/** The text `datetime.isoformat(timespec="milliseconds")` gives for an aware
    date-time: `YYYY-MM-DDTHH:MM:SS.mmm` and the UTC offset `±HH:MM`, with
    `:SS` appended when the offset has a seconds part. */
module IsoFormat {
  import opened Wrappers
  import opened Calendar

  /** The fields that appear in the text; the offset in seconds east of UTC. */
  datatype Timestamp = Timestamp(
    date: Date, hour: int, minute: int, second: int, millisecond: int, offset: int)

  /** Offsets Python accepts: strictly less than one day either way. */
  predicate ValidOffset(offset: int) {
    -86400 < offset < 86400
  }

  predicate WellFormed(t: Timestamp) {
    && ValidDate(t.date)
    && 0 <= t.hour < 24 && 0 <= t.minute < 60 && 0 <= t.second < 60
    && 0 <= t.millisecond < 1000
    && ValidOffset(t.offset)
  }

  predicate IsDigit(c: char) {
    '0' <= c <= '9'
  }

  /** The decimal digit for `k`. */
  function Digit(k: int): (c: char)
    requires 0 <= k < 10
    ensures IsDigit(c)
  {
    ('0' as int + k) as char
  }

  /** The value of a decimal digit. */
  function DigitValue(c: char): (k: int)
    requires IsDigit(c)
    ensures 0 <= k < 10
  {
    c as int - '0' as int
  }

  /** The magnitude and the sign character of an offset. */
  function Magnitude(offset: int): nat {
    if offset < 0 then -offset else offset
  }

  function SignChar(offset: int): char {
    if offset < 0 then '-' else '+'
  }

  /** The UTC offset as Python's `isoformat` writes it: `±HH:MM`, then `:SS`
      when the offset is not a whole number of minutes. */
  function OffsetText(offset: int): (s: string)
    requires ValidOffset(offset)
    ensures offset % 60 == 0 ==> |s| == 6
    ensures offset % 60 != 0 ==> |s| == 9
  {
    NegatedModSixty(offset);
    var a := Magnitude(offset);
    var hh, mm, ss := a / 3600, a % 3600 / 60, a % 60;
    var hhmm := [SignChar(offset), Digit(hh / 10), Digit(hh % 10), ':', Digit(mm / 10), Digit(mm % 10)];
    if ss == 0 then hhmm else hhmm + [':', Digit(ss / 10), Digit(ss % 10)]
  }

  lemma NegatedModSixty(x: int)
    ensures (-x) % 60 == 0 <==> x % 60 == 0
  {
    if x % 60 == 0 {
      assert -x == (-(x / 60)) * 60;
    }
    if (-x) % 60 == 0 {
      assert x == (-((-x) / 60)) * 60;
    }
  }

  /** The date and time of day as `isoformat` writes them: year with four
      digits (`%04d`), the other fields with two, milliseconds with three. */
  function DateTimeText(t: Timestamp): (s: string)
    requires WellFormed(t)
    ensures |s| == 23
  {
    var y, mo, d := t.date.year, t.date.month, t.date.day;
    var h, mi, se, ms := t.hour, t.minute, t.second, t.millisecond;
    var y1, ms1 := y / 10, ms / 10;
    var y2 := y1 / 10;
    [Digit(y2 / 10), Digit(y2 % 10), Digit(y1 % 10), Digit(y % 10), '-',
     Digit(mo / 10), Digit(mo % 10), '-', Digit(d / 10), Digit(d % 10), 'T',
     Digit(h / 10), Digit(h % 10), ':', Digit(mi / 10), Digit(mi % 10), ':',
     Digit(se / 10), Digit(se % 10), '.', Digit(ms1 / 10), Digit(ms1 % 10), Digit(ms % 10)]
  }

  /** The whole timestamp: date and time, then the offset. */
  function Format(t: Timestamp): (s: string)
    requires WellFormed(t)
    ensures |s| == 23 + |OffsetText(t.offset)|
  {
    DateTimeText(t) + OffsetText(t.offset)
  }

  /** `s` is exactly `YYYY-MM-DDTHH:MM:SS.mmm`. */
  predicate HasDateTimeShape(s: string) {
    && |s| == 23
    && IsDigit(s[0]) && IsDigit(s[1]) && IsDigit(s[2]) && IsDigit(s[3]) && s[4] == '-'
    && IsDigit(s[5]) && IsDigit(s[6]) && s[7] == '-' && IsDigit(s[8]) && IsDigit(s[9])
    && s[10] == 'T' && IsDigit(s[11]) && IsDigit(s[12]) && s[13] == ':'
    && IsDigit(s[14]) && IsDigit(s[15]) && s[16] == ':' && IsDigit(s[17]) && IsDigit(s[18])
    && s[19] == '.' && IsDigit(s[20]) && IsDigit(s[21]) && IsDigit(s[22])
  }

  /** The two-digit number at `s[i..i + 2]`. */
  function Number2(s: string, i: nat): int
    requires i + 2 <= |s| && IsDigit(s[i]) && IsDigit(s[i + 1])
  {
    10 * DigitValue(s[i]) + DigitValue(s[i + 1])
  }

  /** Reads an offset written as `±HH:MM` or `±HH:MM:SS`, with hours below 24
      and minutes and seconds below 60. Only the spellings `isoformat` can
      produce are accepted: a zero offset has the sign '+', and a seconds
      field is present only when it is not zero. */
  function ParseOffset(s: string): Option<int> {
    if (|s| != 6 && |s| != 9) || (s[0] != '+' && s[0] != '-') || s[3] != ':'
       || !IsDigit(s[1]) || !IsDigit(s[2]) || !IsDigit(s[4]) || !IsDigit(s[5])
       || (|s| == 9 && (s[6] != ':' || !IsDigit(s[7]) || !IsDigit(s[8])))
       || Number2(s, 1) >= 24 || Number2(s, 4) >= 60
       || (|s| == 9 && (Number2(s, 7) >= 60 || Number2(s, 7) == 0))
    then None
    else
      var ss := if |s| == 9 then Number2(s, 7) else 0;
      var a := Number2(s, 1) * 3600 + Number2(s, 4) * 60 + ss;
      if s[0] == '-' && a == 0 then None
      else Some(if s[0] == '-' then -a else a)
  }

  /** `s` is exactly `YYYY-MM-DDTHH:MM:SS.mmm±HH:MM`: the offset is six
      characters and reads as an offset. */
  predicate HasIsoShape(s: string) {
    |s| == 29 && HasDateTimeShape(s[..23]) && ParseOffset(s[23..]).Some?
  }

  /** The fields of `YYYY-MM-DDTHH:MM:SS.mmm`, with the given offset. */
  function ReadDateTime(s: string, offset: int): Timestamp
    requires HasDateTimeShape(s)
  {
    var year := 1000 * DigitValue(s[0]) + 100 * DigitValue(s[1]) + Number2(s, 2);
    var ms := 100 * DigitValue(s[20]) + Number2(s, 21);
    Timestamp(Date(year, Number2(s, 5), Number2(s, 8)),
              Number2(s, 11), Number2(s, 14), Number2(s, 17), ms, offset)
  }

  /** Reads back the fields of a formatted timestamp. */
  function Parse(s: string): Option<Timestamp> {
    if |s| < 23 || !HasDateTimeShape(s[..23]) then None
    else
      match ParseOffset(s[23..])
      case None => None
      case Some(offset) => Some(ReadDateTime(s[..23], offset))
  }

  /** A minute field of 60 or more, a negative zero and a zero seconds
      field are not offset texts: together with `OffsetRoundTrip`, each
      offset has exactly one text that reads back as it. */
  lemma OutOfRangeMinutesRejected()
    ensures ParseOffset("+00:60") == None
    ensures ParseOffset("-00:00") == None
    ensures ParseOffset("+01:00:00") == None
    ensures ParseOffset("+01:00") == Some(3600)
    ensures ParseOffset("+00:00") == Some(0)
  {
    assert Number2("+00:60", 4) == 60;
    assert Number2("-00:00", 1) == 0 && Number2("-00:00", 4) == 0;
    assert Number2("+01:00:00", 7) == 0;
  }

  /** Two digit pairs that read as the same number are the same characters. */
  lemma DigitsDetermine(s: string, o: string, i: nat)
    requires i + 2 <= |s| && i + 2 <= |o|
    requires IsDigit(s[i]) && IsDigit(s[i + 1]) && IsDigit(o[i]) && IsDigit(o[i + 1])
    requires Number2(s, i) == Number2(o, i)
    ensures s[i] == o[i] && s[i + 1] == o[i + 1]
  {
  }

  lemma SplitSeconds(a: nat)
    ensures a / 3600 * 3600 + a % 3600 / 60 * 60 + a % 60 == a
  {
    var q, r := a / 3600, a % 3600;
    assert a == q * 3600 + r;
    var m, s := r / 60, r % 60;
    assert r == m * 60 + s;
    assert a == (q * 60 + m) * 60 + s;
  }

  lemma OffsetRoundTrip(offset: int)
    requires ValidOffset(offset)
    ensures ParseOffset(OffsetText(offset)) == Some(offset)
  {
    var a := Magnitude(offset);
    SplitSeconds(a);
  }

  /** Four decimal digits, most significant first, spell `n` back. */
  lemma FourDigits(n: nat)
    ensures var n1 := n / 10; var n2 := n1 / 10;
            1000 * (n2 / 10) + 100 * (n2 % 10) + 10 * (n1 % 10) + n % 10 == n
  {
    var n1 := n / 10;
    var n2 := n1 / 10;
    assert n == 10 * n1 + n % 10;
    assert n1 == 10 * n2 + n1 % 10;
    assert n2 == 10 * (n2 / 10) + n2 % 10;
  }

  /** Three decimal digits, most significant first, spell `n` back. */
  lemma ThreeDigits(n: nat)
    ensures var n1 := n / 10; 100 * (n1 / 10) + 10 * (n1 % 10) + n % 10 == n
  {
    var n1 := n / 10;
    assert n == 10 * n1 + n % 10;
    assert n1 == 10 * (n1 / 10) + n1 % 10;
  }

  lemma DigitRoundTrip(k: int)
    requires 0 <= k < 10
    ensures DigitValue(Digit(k)) == k
  {
  }

  /** The digits written for `a` and `b` are read back as `10 * a + b`. */
  lemma TwoDigitsRead(s: string, i: nat, a: int, b: int)
    requires 0 <= a < 10 && 0 <= b < 10 && i + 2 <= |s|
    requires s[i] == Digit(a) && s[i + 1] == Digit(b)
    ensures IsDigit(s[i]) && IsDigit(s[i + 1]) && Number2(s, i) == 10 * a + b
  {
    DigitRoundTrip(a);
    DigitRoundTrip(b);
  }

  /** The date and time text has the layout `YYYY-MM-DDTHH:MM:SS.mmm`. */
  lemma DateTimeShape(t: Timestamp)
    requires WellFormed(t)
    ensures HasDateTimeShape(DateTimeText(t))
  {
  }

  /** Every field of the date and time text is read back. */
  lemma DateTimeRoundTrip(t: Timestamp)
    requires WellFormed(t)
    ensures HasDateTimeShape(DateTimeText(t))
    ensures ReadDateTime(DateTimeText(t), t.offset) == t
  {
    DateTimeShape(t);
    var s := DateTimeText(t);
    var y, mo, d := t.date.year, t.date.month, t.date.day;
    var h, mi, se, ms := t.hour, t.minute, t.second, t.millisecond;
    var y1, ms1 := y / 10, ms / 10;
    var y2 := y1 / 10;
    FourDigits(y);
    ThreeDigits(ms);
    DigitRoundTrip(y2 / 10);
    DigitRoundTrip(y2 % 10);
    DigitRoundTrip(ms1 / 10);
    TwoDigitsRead(s, 2, y1 % 10, y % 10);
    TwoDigitsRead(s, 5, mo / 10, mo % 10);
    TwoDigitsRead(s, 8, d / 10, d % 10);
    TwoDigitsRead(s, 11, h / 10, h % 10);
    TwoDigitsRead(s, 14, mi / 10, mi % 10);
    TwoDigitsRead(s, 17, se / 10, se % 10);
    TwoDigitsRead(s, 21, ms1 % 10, ms % 10);
  }

  /** The fields of a text that reads back as `offset` are those of its
      hours, minutes and seconds, and its sign and length are those of
      `OffsetText`. */
  lemma ParsedOffsetFields(s: string, offset: int)
    requires ValidOffset(offset) && ParseOffset(s) == Some(offset)
    ensures var a := Magnitude(offset); var o := OffsetText(offset);
            && |s| == |o| && s[0] == o[0]
            && Number2(s, 1) == a / 3600 && Number2(s, 4) == a % 3600 / 60
            && (|s| == 9 ==> Number2(s, 7) == a % 60)
  {
    var a := Magnitude(offset);
    NegatedModSixty(offset);
    var sec := if |s| == 9 then Number2(s, 7) else 0;
    assert Number2(s, 1) * 3600 + Number2(s, 4) * 60 + sec == a;
    SplitUnique(a, Number2(s, 1), Number2(s, 4), sec);
  }

  /** Hours, minutes and seconds below 60 are the only way to split `a`. */
  lemma SplitUnique(a: int, h: int, m: int, sec: int)
    requires 0 <= h && 0 <= m < 60 && 0 <= sec < 60 && a == h * 3600 + m * 60 + sec
    ensures a / 3600 == h && a % 3600 / 60 == m && a % 60 == sec
  {
    var r := m * 60 + sec;
    assert 0 <= r < 3600;
    assert a / 3600 == h && a % 3600 == r;
    assert r / 60 == m && r % 60 == sec;
    assert a == (h * 60 + m) * 60 + sec;
  }

  /** Each offset has one text only: any text that reads back as the offset
      is the one `OffsetText` writes. */
  lemma OffsetTextUnique(s: string, offset: int)
    requires ValidOffset(offset) && ParseOffset(s) == Some(offset)
    ensures s == OffsetText(offset)
  {
    ParsedOffsetFields(s, offset);
    var o := OffsetText(offset);
    var a := Magnitude(offset);
    var hh, mm, ss := a / 3600, a % 3600 / 60, a % 60;
    TwoDigitsRead(o, 1, hh / 10, hh % 10);
    TwoDigitsRead(o, 4, mm / 10, mm % 10);
    DigitsDetermine(s, o, 1);
    DigitsDetermine(s, o, 4);
    if |s| == 9 {
      TwoDigitsRead(o, 7, ss / 10, ss % 10);
      DigitsDetermine(s, o, 7);
      assert forall i | 0 <= i < 9 :: s[i] == o[i];
    } else {
      assert forall i | 0 <= i < 6 :: s[i] == o[i];
    }
  }

  /** Parsing undoes formatting: every field, the offset included, is
      recovered from the text. */
  lemma FormatRoundTrip(t: Timestamp)
    requires WellFormed(t)
    ensures Parse(Format(t)) == Some(t)
  {
    var s := Format(t);
    assert s[..23] == DateTimeText(t);
    assert s[23..] == OffsetText(t.offset);
    DateTimeRoundTrip(t);
    OffsetRoundTrip(t.offset);
  }

  /** The hour digits of an offset text spell a number below 24 and its
      minute digits one below 60. */
  lemma OffsetFieldsInRange(offset: int)
    requires ValidOffset(offset)
    ensures var o := OffsetText(offset);
            && (o[1] < '2' || (o[1] == '2' && o[2] < '4')) && '0' <= o[4] <= '5'
  {
    var a := Magnitude(offset);
    assert a / 3600 < 24;
    assert a % 3600 / 60 < 60;
  }

  /** With a whole-minute offset the text has the fixed 29-character layout. */
  lemma FormatShape(t: Timestamp)
    requires WellFormed(t) && t.offset % 60 == 0
    ensures HasIsoShape(Format(t))
  {
    var s := Format(t);
    assert s[..23] == DateTimeText(t);
    assert s[23..] == OffsetText(t.offset);
    DateTimeRoundTrip(t);
    OffsetRoundTrip(t.offset);
  }
}
