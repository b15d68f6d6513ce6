/** `_build_history_range`: the `historyFrom` and `historyUntil` query values
    for the last `days_back` days. The clock and the time-zone database are not
    modelled: today's local date and the zone's UTC offsets at the two
    instants are inputs. */
module HistoryRange {
  import opened Wrappers
  import opened Calendar
  import opened IsoFormat

  datatype Range = Range(historyFrom: string, historyUntil: string)

  /** A range, or the `OverflowError` of date arithmetic outside years 1-9999. */
  datatype RangeResult = Built(range: Range) | DateOverflow

  /** The microsecond fields the source sets on the two ends. */
  const StartMicrosecond: int := 0
  const EndMicrosecond: int := 999000

  /** `timespec="milliseconds"` keeps the whole milliseconds. */
  function Milliseconds(microsecond: nat): nat {
    microsecond / 1000
  }

  /** The range from midnight `daysBack` days before `today` to the last
      millisecond of `today`. `fromOffset` and `untilOffset` are the zone's
      offsets at those two wall-clock times (equal unless a daylight-saving
      change lies between them). */
  function BuildHistoryRange(today: Date, daysBack: int, fromOffset: int, untilOffset: int): (r: RangeResult)
    requires ValidDate(today) && ValidOffset(fromOffset) && ValidOffset(untilOffset)
    ensures r.Built? <==> ShiftDays(today, -daysBack).Shifted?
    ensures r.Built? ==>
              && r.range.historyFrom == Format(Timestamp(StartDate(today, daysBack), 0, 0, 0, 0, fromOffset))
              && r.range.historyUntil == Format(Timestamp(today, 23, 59, 59, 999, untilOffset))
  {
    match ShiftDays(today, -daysBack)
    case OutOfRange => DateOverflow
    case Shifted(start) =>
      Built(Range(
        Format(Timestamp(start, 0, 0, 0, Milliseconds(StartMicrosecond), fromOffset)),
        Format(Timestamp(today, 23, 59, 59, Milliseconds(EndMicrosecond), untilOffset))))
  }

  /** The range fails exactly when the start date would fall outside years
      1-9999. */
  lemma HistoryRangeDefined(today: Date, daysBack: int, fromOffset: int, untilOffset: int)
    requires ValidDate(today) && ValidOffset(fromOffset) && ValidOffset(untilOffset)
    ensures BuildHistoryRange(today, daysBack, fromOffset, untilOffset).Built?
            <==> 1 <= Ordinal(today) - daysBack <= LastOrdinal
  {
    assert BuildHistoryRange(today, daysBack, fromOffset, untilOffset).Built?
           <==> ShiftDays(today, -daysBack).Shifted?;
    ShiftDaysCorrect(today, -daysBack);
  }

  /** The start date of the range: `daysBack` days before `today`. */
  function StartDate(today: Date, daysBack: int): (start: Date)
    requires ValidDate(today) && ShiftDays(today, -daysBack).Shifted?
    ensures ValidDate(start)
  {
    ShiftDays(today, -daysBack).date
  }

  /** `historyFrom` reads back as 00:00:00.000 on the start date with
      `fromOffset`. */
  lemma HistoryFromParsed(today: Date, daysBack: int, fromOffset: int, untilOffset: int)
    requires ValidDate(today) && ValidOffset(fromOffset) && ValidOffset(untilOffset)
    requires BuildHistoryRange(today, daysBack, fromOffset, untilOffset).Built?
    ensures ShiftDays(today, -daysBack).Shifted?
    ensures Parse(BuildHistoryRange(today, daysBack, fromOffset, untilOffset).range.historyFrom)
            == Some(Timestamp(StartDate(today, daysBack), 0, 0, 0, 0, fromOffset))
  {
    var t := Timestamp(StartDate(today, daysBack), 0, 0, 0, 0, fromOffset);
    var s := BuildHistoryRange(today, daysBack, fromOffset, untilOffset).range.historyFrom;
    assert s == Format(t);
    FormatRoundTrip(t);
  }

  /** The start date is `daysBack` calendar days before `today`, across month,
      year and leap-day boundaries: its day number is `daysBack` less. */
  lemma StartDateOrdinal(today: Date, daysBack: int)
    requires ValidDate(today) && 1 <= Ordinal(today) - daysBack <= LastOrdinal
    ensures ShiftDays(today, -daysBack).Shifted?
    ensures Ordinal(StartDate(today, daysBack)) == Ordinal(today) - daysBack
  {
    ShiftDaysCorrect(today, -daysBack);
  }

  /** `historyUntil` reads back as 23:59:59.999 today with `untilOffset`. */
  lemma HistoryUntilMeaning(today: Date, daysBack: int, fromOffset: int, untilOffset: int)
    requires ValidDate(today) && ValidOffset(fromOffset) && ValidOffset(untilOffset)
    requires BuildHistoryRange(today, daysBack, fromOffset, untilOffset).Built?
    ensures Parse(BuildHistoryRange(today, daysBack, fromOffset, untilOffset).range.historyUntil)
            == Some(Timestamp(today, 23, 59, 59, 999, untilOffset))
  {
    var t := Timestamp(today, 23, 59, 59, 999, untilOffset);
    var s := BuildHistoryRange(today, daysBack, fromOffset, untilOffset).range.historyUntil;
    assert s == Format(t);
    FormatRoundTrip(t);
  }

  /** Wall-clock order of two timestamps, ignoring their offsets. */
  predicate WallClockBefore(a: Timestamp, b: Timestamp) {
    || DateBefore(a.date, b.date)
    || (a.date == b.date &&
        (a.hour, a.minute, a.second, a.millisecond) != (b.hour, b.minute, b.second, b.millisecond) &&
        (|| a.hour < b.hour
         || (a.hour == b.hour && a.minute < b.minute)
         || (a.hour == b.hour && a.minute == b.minute && a.second < b.second)
         || (a.hour == b.hour && a.minute == b.minute && a.second == b.second
             && a.millisecond < b.millisecond)))
  }

  /** For `daysBack >= 0`, the start of the range is strictly earlier on the
      wall clock than its end. */
  lemma HistoryRangeOrdered(today: Date, daysBack: int, fromOffset: int, untilOffset: int)
    requires ValidDate(today) && ValidOffset(fromOffset) && ValidOffset(untilOffset)
    requires daysBack >= 0
    requires BuildHistoryRange(today, daysBack, fromOffset, untilOffset).Built?
    ensures var r := BuildHistoryRange(today, daysBack, fromOffset, untilOffset).range;
            Parse(r.historyFrom).Some? && Parse(r.historyUntil).Some? &&
            WallClockBefore(Parse(r.historyFrom).value, Parse(r.historyUntil).value)
  {
    HistoryRangeDefined(today, daysBack, fromOffset, untilOffset);
    StartDateOrdinal(today, daysBack);
    HistoryFromParsed(today, daysBack, fromOffset, untilOffset);
    HistoryUntilMeaning(today, daysBack, fromOffset, untilOffset);
    OrdinalDeterminesOrder(StartDate(today, daysBack), today);
  }

  /** Python's `s[-6:]`, the label printed as the time zone. */
  function Last6(s: string): (r: string)
    ensures |r| == if |s| < 6 then |s| else 6
    ensures forall i :: 0 <= i < |r| ==> r[i] == s[|s| - |r| + i]
  {
    if |s| < 6 then s else s[|s| - 6..]
  }

  lemma SuffixOfConcat(a: string, b: string, n: nat)
    requires n <= |b|
    ensures (a + b)[|a + b| - n..] == b[|b| - n..]
  {
  }

  /** The label of a formatted timestamp is the last six characters of its
      offset text. */
  lemma Last6OfFormat(t: Timestamp)
    requires WellFormed(t)
    ensures var o := OffsetText(t.offset); Last6(Format(t)) == o[|o| - 6..]
  {
    SuffixOfConcat(DateTimeText(t), OffsetText(t.offset), 6);
  }

  /** With whole-minute offsets both strings have the layout
      `YYYY-MM-DDTHH:MM:SS.mmm±HH:MM`, so the last six characters of
      `historyFrom` are exactly its offset. */
  lemma HistoryRangeShape(today: Date, daysBack: int, fromOffset: int, untilOffset: int)
    requires ValidDate(today) && ValidOffset(fromOffset) && ValidOffset(untilOffset)
    requires fromOffset % 60 == 0 && untilOffset % 60 == 0
    requires BuildHistoryRange(today, daysBack, fromOffset, untilOffset).Built?
    ensures var r := BuildHistoryRange(today, daysBack, fromOffset, untilOffset).range;
            HasIsoShape(r.historyFrom) && HasIsoShape(r.historyUntil)
            && Last6(r.historyFrom) == OffsetText(fromOffset)
  {
    var from := Timestamp(StartDate(today, daysBack), 0, 0, 0, 0, fromOffset);
    var until := Timestamp(today, 23, 59, 59, 999, untilOffset);
    var r := BuildHistoryRange(today, daysBack, fromOffset, untilOffset).range;
    assert r.historyFrom == Format(from) && r.historyUntil == Format(until);
    FormatShape(from);
    FormatShape(until);
    Last6OfFormat(from);
  }

  /** An offset with a seconds part (a local mean time, for dates before a zone
      adopted standard time) is written `±HH:MM:SS`, and then the six-character
      label starts with ':' instead of the offset's sign. */
  lemma SecondsOffsetBreaksLabel(today: Date, daysBack: int, fromOffset: int, untilOffset: int)
    requires ValidDate(today) && ValidOffset(fromOffset) && ValidOffset(untilOffset)
    requires fromOffset % 60 != 0
    requires BuildHistoryRange(today, daysBack, fromOffset, untilOffset).Built?
    ensures var r := BuildHistoryRange(today, daysBack, fromOffset, untilOffset).range;
            Last6(r.historyFrom)[0] == ':' && Last6(r.historyFrom) != OffsetText(fromOffset)
  {
    var from := Timestamp(StartDate(today, daysBack), 0, 0, 0, 0, fromOffset);
    var r := BuildHistoryRange(today, daysBack, fromOffset, untilOffset).range;
    assert r.historyFrom == Format(from);
    Last6OfFormat(from);
  }
}
