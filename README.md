# Fluvius consumption client: a Dafny model

This project models the client-side logic of `fluvius_api_solution.py`. That
script logs into the Fluvius customer portal, or reuses a bearer token the
user supplies. It then requests the meter-measurement history of one meter
for the last `days_back` days and prints a per-day summary of consumed and
injected energy.

The model has six modules:

- `BearerToken` covers `_strip_bearer_prefix`. It models Python's `str.strip`
  over the full `str.isspace` character set, the case-insensitive
  `"bearer "` test, and `split(" ", 1)`.
- `Arguments` covers the checks that follow `parse_args` in `_parse_args`,
  with Python truthiness. It also covers the choice in `request_access_token`
  between reusing the supplied token and logging in. The login is a function
  parameter.
- `Calendar` covers proleptic Gregorian dates for years 1 to 9999. It shifts a
  date by whole days one day at a time. That shift is proved equal to
  arithmetic on Python's `toordinal` day numbers, and it fails with
  `OutOfRange` where Python raises `OverflowError`.
- `IsoFormat` covers the text `datetime.isoformat(timespec="milliseconds")`
  gives for an aware date-time. A parser is defined beside it. It is proved
  to be a left inverse of the formatting, and each offset is proved to
  have exactly one text the parser accepts for it.
- `HistoryRange` covers `_build_history_range`. The local date and the zone's
  UTC offsets at the two ends of the range are inputs.
- `Consumption` covers `analyze_consumption_data` as an imperative method with
  nested loops. It is proved to compute, for every day, the totals and lines
  given by recursive specification functions. The net figure is per day,
  over all tariffs together. Every `t` other than 1, a missing `t`
  included, is labelled low.

## Model

| member | source | states |
|---|---|---|
| BearerToken.Strip | fluvius_api_solution.py:64 | The result is no longer than the input, and it neither starts nor ends with a whitespace character. |
| BearerToken.StripIsTheFramedText | fluvius_api_solution.py:64 | Stripping is the unique cut with only whitespace before and after it and non-whitespace at both of its ends. |
| BearerToken.StripUnpadded | fluvius_api_solution.py:64 | Stripping leaves a string unchanged when it has no whitespace at either end. |
| BearerToken.SplitOnce | fluvius_api_solution.py:66 | `split(sep, 1)` yields the whole string when `sep` is absent. Otherwise it yields two parts that rebuild the string around the first `sep`. |
| BearerToken.StripBearerPrefix | fluvius_api_solution.py:63-67 | The result is the stripped token with the first seven characters removed when they spell "bearer " in any case, and otherwise the stripped token unchanged. It is never longer than the input. |
| BearerToken.FirstSpaceAt6 | fluvius_api_solution.py:65-66 | For a string starting with "bearer ", splitting at the first space gives exactly the text after the seven-character prefix. |
| BearerToken.NoTrailingSpace | fluvius_api_solution.py:63-67 | The returned token never ends with whitespace. |
| BearerToken.PrefixRemoved | fluvius_api_solution.py:65-66 | "Bearer " (in any case) followed by a token whose last character is not whitespace yields exactly that token. |
| BearerToken.BareBearerKept | fluvius_api_solution.py:64-67 | The word "bearer" alone, in any case and with any surrounding whitespace, is returned unchanged, because stripping removes the space the prefix test needs. |
| BearerToken.PrefixAloneKept | fluvius_api_solution.py:64-67 | The input "Bearer " yields "Bearer", not the empty string. |
| BearerToken.NotIdempotent | fluvius_api_solution.py:63-67 | A doubled prefix loses only one copy per call, so applying the function twice differs from applying it once. |
| Arguments.Validate | fluvius_api_solution.py:51-59 | Arguments are accepted exactly when each required value is non-empty. Each error is reported exactly when its own check is the first to fail: email, then password (both only without a bearer token), then EAN, then meter serial. |
| Arguments.ArgError.Message | fluvius_api_solution.py:53-59 | Every rejection message starts with "Missing --" followed by the flag its check requires (`email`, `password`, `ean`, `meter-serial`) and a space. |
| Arguments.MessagesIdentifyCheck | fluvius_api_solution.py:53-59 | No two checks print the same message, so the message tells which check failed. |
| Arguments.BearerTokenSkipsCredentials | fluvius_api_solution.py:51-55 | With a non-empty bearer token, email and password do not affect validation. |
| Arguments.RequestAccessToken | fluvius_api_solution.py:70-80 | A non-empty bearer token is returned with its prefix stripped. Otherwise the login is called with the email, the password, remember-me and `verbose = not quiet`, and its token is returned. |
| Arguments.BearerTokenSkipsLogin | fluvius_api_solution.py:71-72 | With a non-empty bearer token the result does not depend on the login at all. |
| Arguments.BlankBearerTokenYieldsEmptyToken | fluvius_api_solution.py:71-72 | A bearer token made only of whitespace is truthy, passes the check and yields the empty token. |
| Arguments.AuthorizationHeader | fluvius_api_solution.py:124 | The header value is "Bearer " followed by the token: its first seven characters are "Bearer " and the rest is the token. |
| Arguments.SuppliedPrefixNotDoubled | fluvius_api_solution.py:72 | A supplied token "Bearer t" leads to the header "Bearer t", not "Bearer Bearer t". |
| Calendar.DaysBeforeYearClosedForm | fluvius_api_solution.py:98 | Counting the days of the years before `y` one year at a time gives Python's closed form `365p + p/4 - p/100 + p/400` with `p = y - 1`. |
| Calendar.LastDateOrdinal | fluvius_api_solution.py:98 | 9999-12-31 has day number 3652059. |
| Calendar.NextDayStep | fluvius_api_solution.py:98 | The next day of a valid date other than 9999-12-31 is valid and has the next day number. |
| Calendar.PrevDayStep | fluvius_api_solution.py:98 | The previous day of a valid date other than 0001-01-01 is valid and has the previous day number. |
| Calendar.ShiftDays | fluvius_api_solution.py:98 | A successful shift yields a valid date. |
| Calendar.OrdinalBounds | fluvius_api_solution.py:98 | Every valid date has a day number between 1 and 3652059. |
| Calendar.ShiftDaysCorrect | fluvius_api_solution.py:98 | Shifting by `k` days succeeds exactly when the target day number lies in 1..3652059. On success the result is valid and its day number is the old one plus `k`. |
| Calendar.OrdinalOrdered | fluvius_api_solution.py:98 | An earlier date has a smaller day number. |
| Calendar.OrdinalDeterminesOrder | fluvius_api_solution.py:98 | Day numbers determine the order of dates: a date whose day number is not larger is the same date or an earlier one. |
| Calendar.ShiftBackNotLater | fluvius_api_solution.py:98 | Going back a non-negative number of days never gives a later date. |
| IsoFormat.OffsetText | fluvius_api_solution.py:101-102 | The offset text has six characters for a whole-minute offset and nine when the offset has a seconds part. |
| IsoFormat.OffsetFieldsInRange | fluvius_api_solution.py:101-102 | The hour digits of the offset text spell a number below 24 and the minute digits one below 60. |
| IsoFormat.OutOfRangeMinutesRejected | fluvius_api_solution.py:101-102 | The reader refuses "+00:60", "-00:00" and "+01:00:00", spellings `isoformat` never writes, and reads "+01:00" as 3600 and "+00:00" as 0. |
| IsoFormat.OffsetTextUnique | fluvius_api_solution.py:101-102 | Any text the reader accepts for an offset is exactly the text written for it, so each offset has one spelling. |
| IsoFormat.OffsetRoundTrip | fluvius_api_solution.py:101-102 | Reading the offset text back gives the offset in seconds, whatever its sign and whether or not it has seconds. |
| IsoFormat.DateTimeRoundTrip | fluvius_api_solution.py:101-102 | The date and time text has the `YYYY-MM-DDTHH:MM:SS.mmm` layout, and every field is read back, the four-digit year included. |
| IsoFormat.Format | fluvius_api_solution.py:101-102 | The text has 23 characters of date and time before the offset text, so it is 29 characters long, or 32 when the offset has seconds. |
| IsoFormat.FormatRoundTrip | fluvius_api_solution.py:101-102 | Parsing the text gives back the timestamp, so formatting loses no field and is injective. |
| IsoFormat.FormatShape | fluvius_api_solution.py:101-102 | With a whole-minute offset the text is exactly `YYYY-MM-DDTHH:MM:SS.mmm±HH:MM`, and its offset part is one the reader accepts. |
| HistoryRange.BuildHistoryRange | fluvius_api_solution.py:95-103 | The range is built exactly when the shift back by `days_back` days succeeds. Then `historyFrom` is the text of 00:00:00.000 on the start date with its offset, and `historyUntil` the text of 23:59:59.999 today with its offset (microsecond 999000 truncated to milliseconds). |
| HistoryRange.HistoryRangeDefined | fluvius_api_solution.py:98 | The range is built exactly when today's day number minus `days_back` lies in 1..3652059. Otherwise Python's date overflow is the result. |
| HistoryRange.StartDate | fluvius_api_solution.py:98 | The start of the range is a valid date. |
| HistoryRange.StartDateOrdinal | fluvius_api_solution.py:98 | The start date is exactly `days_back` calendar days before today, across month, year and leap-day boundaries. |
| HistoryRange.HistoryFromParsed | fluvius_api_solution.py:98-101 | `historyFrom` reads back as 00:00:00.000 on the start date, with the offset in force at that time. |
| HistoryRange.HistoryUntilMeaning | fluvius_api_solution.py:99-102 | `historyUntil` reads back as today at 23:59:59.999 (microsecond 999000 truncated to milliseconds), with the offset in force at that time. |
| HistoryRange.HistoryRangeOrdered | fluvius_api_solution.py:95-103 | For `days_back >= 0` both ends parse, and the start is strictly earlier on the wall clock than the end. |
| HistoryRange.Last6 | fluvius_api_solution.py:130 | `s[-6:]` has `min(len(s), 6)` characters and they are the last ones of `s`. |
| HistoryRange.Last6OfFormat | fluvius_api_solution.py:130 | The printed zone label of a timestamp text is the last six characters of its offset text. |
| HistoryRange.HistoryRangeShape | fluvius_api_solution.py:100-103 | With whole-minute offsets both ends have the fixed ISO layout, and the printed label is the start's full offset. |
| HistoryRange.SecondsOffsetBreaksLabel | fluvius_api_solution.py:130 | With an offset that has a seconds part, the printed label starts with ':' and is not the offset. |
| Consumption.TariffOf | fluvius_api_solution.py:168-170 | A reading is high tariff exactly when its `t` is 1. A missing `t` counts as low. |
| Consumption.AnalyzeConsumption | fluvius_api_solution.py:149-182 | An empty input gives no report, and only an empty input does. Otherwise there is one day report per input day, in order, with the day number `i + 1`, the date or "Unknown date", the printed lines, the consumption total, the injection total and their difference. |
| Consumption.FlowTotalAppend | fluvius_api_solution.py:166-177 | A direction's total over two runs of readings is the sum of their totals. |
| Consumption.NetIsSignedSum | fluvius_api_solution.py:179 | The net figure equals the sum of every reading counted positive for consumption, negative for injection and zero otherwise. |
| Consumption.OtherDirectionIgnored | fluvius_api_solution.py:172-177 | A reading whose direction is neither 1 nor 2 changes neither total and prints no line. |
| Consumption.TotalsMatchLines | fluvius_api_solution.py:172-177 | Each total equals the sum of the values on the lines printed for that flow. |
| Consumption.TotalsNonNegative | fluvius_api_solution.py:164-177 | With non-negative reading values both totals are non-negative. |
| Consumption.DayWithoutReadings | fluvius_api_solution.py:160-182 | A day without a `v` list reports zero consumption, injection and net, and prints no lines. |
| Consumption.MixedDayExample | fluvius_api_solution.py:166-179 | Consumption 9.133 and injection 12.421 on one day give net -3.288. |

## Left out

- Command-line parsing and environment variables. `Args` holds the already-parsed values. `parser.error`'s usage text and exit status 2 are not modelled: a rejection carries only the message.
- The login (`get_bearer_token_http` in `fluvius_fetch_token`). That module is not part of this model. The login is a function parameter, so its PKCE steps, HTTP traffic, cookies and claims are not modelled.
- `_resolve_timezone`, `datetime.now` and the zone database. Today's local date and the two UTC offsets are inputs. The model does not check that an offset is the one the zone really has at that wall-clock time.
- The time of day of `local_now`. `_build_history_range` replaces every time field, so only the date and the offsets matter. Subtracting whole days leaves the time of day unchanged, so it cannot affect whether the subtraction overflows.
- Offsets with microseconds. Python zones never produce them, so `isoformat`'s `.ffffff` offset suffix is not modelled.
- The HTTP request in `get_consumption_data`: its query map, its headers other than `Authorization`, status handling and JSON decoding. The response is the input of `Consumption.AnalyzeConsumption`.
- `main`, every `print`, and writing the JSON file. Printed lines are modelled as `ReadingLine` values.
- Floating point. Values are exact reals, so float rounding and the `:.3f` formatting are not modelled. `float(v)` of a non-numeric value, which raises in Python, is not modelled either.
- JSON values of other types. `dc` and `t` are modelled as integers or absent. Python's `True == 1` and `1.0 == 1` comparisons are therefore not modelled, and neither is an explicit `null`, which `.get` returns instead of the default.
- BearerToken.StripBearerPrefix: `lower()` is modelled on ASCII letters only. The prefix test is still exact, because no other character lowercases to a character of "bearer ". The result is taken from the stripped text, never from its lowercase copy.
