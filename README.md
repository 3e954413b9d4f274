# Argo float explorer — data logic

A Dafny model of the data logic in `agro_explorer.py`, a Streamlit dashboard
for Argo profiling floats. The page reads `*_prof.nc` NetCDF files and builds
one record per profile. It offers the records' platforms and date range as
filters, and plots each shown profile's temperature and salinity against
pressure once fill values are masked out. The model covers the parts of that
pipeline that compute values:

- `julian_to_datetime` (`julian.dfy`, with the calendar in `calendar.dfy`).
  It turns a JULD offset in days since 1950-01-01 into a timestamp. Offsets
  at or above 999999 count as fill values and become missing. It takes a
  scalar or a 1-d array and returns the same shape. This part of the source
  works in place: the fill replacement rewrites an `array`
  (`MaskFillValues`), and `JulianToDatetime` does the whole conversion step
  by step and is proved equal to the functional `Decode`.
- `decode_char_array` (`chars.dfy`). A character array (bytes or text)
  becomes its joined text with Python's `str.strip()` applied. Any other
  array becomes its `str` rendering.
- The extraction loop of `load_argo_data` (`loader.dfy`). The source's two
  `for` loops, over files (line 67) and profile indices (line 70), become
  `while` loops with invariants. The loop skips profiles whose JULD
  is exactly 999999.0 and replaces a 99999.0 latitude or longitude by NaN.
  It appends the records in file order, then in index order. The loop is
  proved equal to a functional specification (`Load`).
- The dashboard computations (`dashboard.dfy`):
  - the list of platforms offered;
  - the date bounds, with their fallback to today;
  - the platform and date filter;
  - the `!= 99999.0` masks that choose the plotted points.
- `masks.dfy` models NumPy and pandas boolean-mask indexing, which all of
  the above use.
- `floats.dfy` models a float as a real number, NaN, or an infinity.
- `wrappers.dfy` holds `Option`, `Result` and the exceptions the code can
  raise.

Times are `Instant`s: integer microseconds since 1950-01-01T00:00:00, the
resolution of Python's `datetime`. A date is a day number counted from
1950-01-01. `Calendar.CivilFromDays` gives its proleptic Gregorian
(year, month, day). For example, `ReferenceDates` proves that offset 25854
is 2020-10-14. The first day of November 2020, where the configured data
directory points, is day 25872.

The model reads every variable as stored in the file, in raw numbers with
no CF decoding (see "## Left out"). With the variables read that way, the
loader as written raises TypeError on the first profile that survives the
fill skip; the finding below explains why, and `Loader.LoadAsWrittenRaises`
states it. The rest of the model decodes that 0-d JULD as the scalar it
holds, as the docstring (line 35) promises. Two more behaviours are worth
knowing. Both are stated as lemmas:

- The loader skips only a JULD of exactly 999999.0, but the decoder treats
  every value of at least 999999 as fill. So a profile whose JULD is above
  999999, +inf, or NaN survives the skip. Once its 0-d JULD is decoded as a
  scalar, it is loaded with no time, although the skip was meant to drop it (`Loader.FillAboveJuldFillIsKept`).
- The pressure mask of line 177 is computed and never applied. So a fill
  pressure at a plotted index is plotted (`Dashboard.FillPressureIsPlotted`).

## Model

| member | source | states |
|---|---|---|
| Masks.TrueIndices | agro_explorer.py:183-184 | The positions a boolean mask selects: each one is in range and selected, they strictly increase, and every selected position is among them. |
| Masks.Select | agro_explorer.py:183-184 | `v[mask]` has one entry per selected position, and entry k is the entry of v at the k-th selected position. |
| Masks.Where | agro_explorer.py:175-177 | An element-wise comparison such as `temp != 99999.0`: the mask has the input's length, and entry i is the condition on element i. |
| Masks.Filter | agro_explorer.py:138-142 | `df[cond]`: the entries at the positions where the mask built from the condition is true. What it keeps is stated by `FilterExactly`. |
| Masks.FilterExactly | agro_explorer.py:138-142 | Filtering keeps exactly the entries that satisfy the condition. The result is the subsequence at increasing positions and has at most the input's length. |
| Masks.FilterMember | agro_explorer.py:138-142 | Every entry of a filtered sequence comes from the input and satisfies the condition. |
| Masks.FilterAppend | agro_explorer.py:67-73 | Filtering distributes over concatenation, so survivors can be collected file by file. |
| Calendar.MarchMonthDay | agro_explorer.py:51 | Day-of-year to (month, day) in a March-based year. The month is real, the day lies inside it, and February 29 is only the last day of the year. |
| Calendar.PositionOf | agro_explorer.py:51 | A day count splits into 400-year era, century, 4-year cycle, year and day of the year, each in range and summing back to the count. Only a leap year has a 366th day. |
| Calendar.CivilFromDays | agro_explorer.py:51 | The (year, month, day) of a day number is always a real proleptic Gregorian date, and February 29 falls only in leap years. |
| Calendar.DaysFromCivilInverse | agro_explorer.py:51 | `DaysFromCivil` undoes `CivilFromDays`, so distinct day numbers have distinct dates. |
| Calendar.CivilFromDaysInverse | agro_explorer.py:51 | `CivilFromDays` undoes `DaysFromCivil` on every valid date, so with `DaysFromCivilInverse` day numbers and valid dates correspond one to one. |
| Calendar.OffsetInjective | agro_explorer.py:51 | A day count has only one valid (era, century, cycle, year, day of year) position. |
| Calendar.CalendarExamples | agro_explorer.py:37 | Day 0 is 1950-01-01, day 25854 is 2020-10-14, and 2020-11-01 is day 25872. |
| Julian.Day | agro_explorer.py:119-120 | `.date()` of a time, as at lines 119-120 and 140-141: the day whose 24 hours contain it. |
| Julian.RoundHalfEven | agro_explorer.py:51 | Rounding to whole microseconds, as `timedelta` does: at most half a unit off, and ties go to the even neighbour. |
| Julian.RoundHalfEvenMonotone | agro_explorer.py:51 | Rounding preserves order. |
| Julian.MaskFill | agro_explorer.py:46 | One element of the fill replacement: the result is NaN exactly when the element is NaN or at least 999999, +inf included, and is the element otherwise. |
| Julian.MaskFillAll | agro_explorer.py:46 | The fill replacement keeps the array's length. |
| Julian.MaskFillValues | agro_explorer.py:46 | In place, every element of at least 999999 becomes NaN and every other element is unchanged. |
| Julian.ToDatetime | agro_explorer.py:51 | One element: None exactly for NaN. Any failure is OverflowError. A timestamp lies in the datetime range and is within half a microsecond of the offset in days. |
| Julian.ToDatetimes | agro_explorer.py:49-54 | The conversion succeeds exactly when every element converts. Element i of the result is the conversion of element i, and a failure is the failure of some element. |
| Julian.DecodeArray | agro_explorer.py:46-54 | Masking then converting an array keeps its length, and any failure is OverflowError. |
| Julian.SoleElement | agro_explorer.py:57-58 | A scalar input returns `datetimes[0]`, the sole element of the converted array. An exception raised by the conversion passes through. |
| Julian.Decode | agro_explorer.py:32-60 | `julian_to_datetime` with a 0-d array read as its scalar. It fails only with OverflowError, returns an array exactly for a 1-d input, and keeps that array's length. |
| Julian.DecodeAsWritten | agro_explorer.py:32-60 | `julian_to_datetime` as written: it raises TypeError exactly for a 0-d input. |
| Julian.JulianToDatetime | agro_explorer.py:32-60 | The imperative conversion (build the array, mask it in place, convert, unwrap a scalar) returns what `Decode` specifies. |
| Julian.DecodeOffset | agro_explorer.py:45-54 | An offset gives missing exactly when it is NaN or at least 999999. It gives a timestamp exactly when it is finite, below 999999, and inside the datetime range. That timestamp is the offset in microseconds. Otherwise the error is OverflowError. |
| Julian.DatetimeRangeDates | agro_explorer.py:51 | The datetime range runs from 0001-01-01 to 9999-12-31. Its end bound is the day of 10000-01-01. |
| Julian.WholeDayOffset | agro_explorer.py:49-54 | A whole-day offset d below 999999 and inside the range decodes to 1950-01-01 plus d days, whose date is day d. |
| Julian.ReferenceDates | agro_explorer.py:37-51 | Offset 0 decodes to exactly 1950-01-01, and offset 25854 to 2020-10-14. |
| Julian.DecodeMonotone | agro_explorer.py:49-54 | A larger offset gives a time and a date no earlier, and a strictly later time when the offsets differ by more than a microsecond. |
| Julian.DayMonotone | agro_explorer.py:119-120 | A later time has a date no earlier. |
| Julian.DecodeArrayElementwise | agro_explorer.py:43-60 | An array input gives an array of the same length. Element i depends only on input element i. The call fails only with OverflowError. |
| Julian.ScalarIsSoleElement | agro_explorer.py:40-58 | A scalar gives the sole element of the one-element array's result, and raises exactly when that conversion does. |
| Julian.ZeroDimRejectedAsWritten | agro_explorer.py:40-43 | As written, a 0-d array raises TypeError. The corrected `Decode` treats it as its scalar. The two agree on scalars and on 1-d arrays. |
| CharArrays.SkipForward | agro_explorer.py:27 | The forward scan of `strip`: every character it passes is one to strip, and it stops at the end or at the first one to keep. |
| CharArrays.SkipBackward | agro_explorer.py:27 | The backward scan of `strip`: every character it passes is one to strip, it never passes the forward scan's stop, and it stops at a character to keep unless it meets that stop. |
| CharArrays.Strip | agro_explorer.py:27 | `strip`: the result is no longer than the input and has no character to strip at either end. |
| CharArrays.StripSpec | agro_explorer.py:27 | `strip`, for any set of characters to strip, returns a slice with only such characters outside it and none at either end of it. Decoding uses Python's `isspace` set. |
| CharArrays.StripFixesStripped | agro_explorer.py:27 | `strip` leaves a string unchanged exactly when neither end holds a character to strip. |
| CharArrays.StripIdempotent | agro_explorer.py:27 | Stripping twice is stripping once. |
| CharArrays.DecodeElem | agro_explorer.py:26 | One element decodes exactly when it is text or a byte below 0x80. |
| CharArrays.IsSpace | agro_explorer.py:27 | The characters Python's `str.isspace` accepts, which `strip()` removes: the ASCII controls 0x09-0x0D and 0x1C-0x1F, space, U+0085, U+00A0, U+1680, U+2000-U+200A, U+2028, U+2029, U+202F, U+205F and U+3000. |
| CharArrays.Join | agro_explorer.py:25-26 | The join succeeds exactly when every element decodes. A failure is UnicodeDecodeError. |
| CharArrays.JoinChars | agro_explorer.py:25-26 | The joined text is the characters of the non-NUL elements, in order. |
| CharArrays.DecodeCharArray | agro_explorer.py:21-29 | It fails exactly for a character array holding a byte of 0x80 or more, and then with UnicodeDecodeError. A character array's result has no whitespace at either end. |
| CharArrays.DecodeCharArraySpec | agro_explorer.py:21-29 | A character array decodes exactly when none of its bytes is 0x80 or more. The result is the stripped join and has no whitespace at either end. |
| CharArrays.JoinText | agro_explorer.py:25-26 | A NUL-free text array joins to its own characters. |
| CharArrays.StrippedTextRoundTrip | agro_explorer.py:21-27 | A NUL-free text array decodes to its own string exactly when that string has no whitespace at either end. |
| Loader.Kept | agro_explorer.py:72-73 | A profile survives the skip exactly when its JULD is not 999999.0 (NaN survives). |
| Loader.Coordinate | agro_explorer.py:92-93 | A coordinate is NaN exactly when the raw value is 99999.0 or NaN, and is the raw value otherwise. |
| Loader.MakeRecord | agro_explorer.py:75-97 | The record dictionary, given the decoded time: the time's exception first, then the platform's. Otherwise the record holds the platform, cycle, time, masked coordinates and the three level arrays. `RecordSpec` states those fields for `BuildRecord`, which calls it. |
| Loader.BuildRecord | agro_explorer.py:75-97 | The record of a kept profile. It can only fail with OverflowError from the time or UnicodeDecodeError from the platform. |
| Loader.BuildRecordAsWritten | agro_explorer.py:75-97 | As written, with JULD read as stored, every kept profile's record raises TypeError. |
| Loader.Survivors | agro_explorer.py:67-73 | The profiles that survive the skip at line 72, over all files: none has a JULD of 999999.0, and there are at most as many as profiles in total. |
| Loader.Load | agro_explorer.py:65-99 | The loader's result: one record per survivor, so no more records than profiles in total. It fails only with OverflowError or UnicodeDecodeError. |
| Loader.LoadAsWritten | agro_explorer.py:65-99 | The loader as written: it either fails with TypeError or returns no records. |
| Loader.BuildAll | agro_explorer.py:87-98 | Appending one record per profile succeeds exactly when every record builds, and records keep the profiles' order. Otherwise a first failing profile's exception is raised. |
| Loader.SurvivorsStep | agro_explorer.py:70-73 | Reading one more profile adds it to the survivors exactly when its JULD is not 999999.0. |
| Loader.ReadProfile | agro_explorer.py:75-97 | Reading a kept profile gives the record given by `BuildRecord`. |
| Loader.ReadStep | agro_explorer.py:70-98 | One loop step keeps the invariant: the records so far are those of the survivors so far. |
| Loader.ReadFails | agro_explorer.py:70-98 | A kept profile whose record raises aborts the load with that exception. |
| Loader.ReadDataset | agro_explorer.py:70-98 | The loop over one file's profiles extends the records of the files before it by those of its survivors. |
| Loader.LoadArgoData | agro_explorer.py:65-99 | The nested loop returns `Load(files)`: the records of the survivors of all files, in file order and then index order. |
| Loader.LaterFilesIgnored | agro_explorer.py:67-98 | Once a record raises, the files after it do not change the outcome of the load. |
| Loader.FlattenOrder | agro_explorer.py:67-70 | Profile i of file f sits at position (profiles before file f) + i of the reading order, which holds all profiles and only them. |
| Loader.LoadSpec | agro_explorer.py:67-87 | The survivors are exactly the profiles whose JULD is not 999999.0, in reading order, and there are at most as many as profiles in total. The load succeeds exactly when every survivor builds, and then gives one record per survivor, in order. |
| Loader.RecordSpec | agro_explorer.py:75-97 | A record has the decoded time and the decoded platform number. It copies the cycle and the level arrays. Latitude and longitude are NaN exactly when the raw value is 99999.0 or NaN, and are otherwise the raw value. A failure is the time's, or if there is none, the platform's. |
| Loader.FillAboveJuldFillIsKept | agro_explorer.py:72-76 | A JULD above 999999, +inf or NaN survives the skip although the decoder gives it no time. With the 0-d JULD decoded as a scalar, its record has no time and is built exactly when its platform decodes. |
| Loader.LoadAsWrittenRaises | agro_explorer.py:71-76 | As written, loading raises TypeError exactly when some profile survives the skip, and otherwise returns no records. |
| Dashboard.Unique | agro_explorer.py:110 | `unique()` lists each value once, and exactly the values that occur. |
| Dashboard.UniqueInFirstAppearanceOrder | agro_explorer.py:110 | `unique()` lists values in the order of their first occurrence. |
| Dashboard.Platforms | agro_explorer.py:110 | Every record's platform is offered, and none twice. |
| Dashboard.PlatformsSpec | agro_explorer.py:110 | Every record's platform is offered, only those, each once, in the order of first appearance. |
| Dashboard.ValidTimes | agro_explorer.py:116 | The collected times are exactly the times present in the records. |
| Dashboard.MinTime | agro_explorer.py:119 | `min` returns an element that is no later than any other. |
| Dashboard.MaxTime | agro_explorer.py:120 | `max` returns an element that is no earlier than any other. |
| Dashboard.DateBounds | agro_explorer.py:116-123 | The date bounds: the lower never exceeds the upper. |
| Dashboard.DateBoundsSpec | agro_explorer.py:116-123 | The lower bound never exceeds the upper. With some time present, both bounds are dates of records, and every record's date lies between them. Otherwise both are today. |
| Dashboard.DatedWithinBounds | agro_explorer.py:116-120 | Every record with a time has its date between the two bounds. |
| Dashboard.BoundsAttained | agro_explorer.py:116-120 | When some record has a time, each bound is the date of such a record. |
| Dashboard.Shown | agro_explorer.py:138-142 | A record is shown exactly when its platform is selected and it has a time whose date lies in the range, bounds included. |
| Dashboard.ShownMask | agro_explorer.py:138-142 | Entry i is true exactly when record i's platform is selected and its date lies in the range, bounds included. |
| Dashboard.FilterProfiles | agro_explorer.py:138-142 | The filter fails exactly when the range has fewer than two dates, and then with IndexError. It never returns more records than it was given. |
| Dashboard.FilterProfilesSpec | agro_explorer.py:138-142 | The filter fails, with IndexError, only on a date range of fewer than two dates. Otherwise it returns a subsequence of the records in order: record i is shown exactly when its platform is selected and its date lies in the range, bounds included. |
| Dashboard.DefaultViewShowsEveryDatedRecord | agro_explorer.py:108-142 | With every platform selected and the range set to the date bounds, the page shows exactly the records that have a time. |
| Dashboard.FillMask | agro_explorer.py:175-177 | The mask has the array's length, and entry i is true exactly when element i is not 99999.0, NaN included. |
| Dashboard.Any | agro_explorer.py:180 | `mask.any()`, used at lines 180 and 190: some entry of the mask is true. |
| Dashboard.TraceOf | agro_explorer.py:179-199 | One variable's trace. Any failure is IndexError, and a trace has its variable and equally many, at least one, x and y values. |
| Dashboard.TraceShape | agro_explorer.py:179-199 | With as many pressures as values, the trace is built, and it exists exactly when some value is not 99999.0. |
| Dashboard.TraceSpec | agro_explorer.py:179-199 | There is no trace exactly when every value is 99999.0. Indexing fails with IndexError exactly when a value is kept and the pressures differ in number. A trace holds exactly the values other than 99999.0, in order, each paired with the pressure at its own index. |
| Dashboard.FillPressureIsPlotted | agro_explorer.py:175-184 | For any profile whose pressures and values are equally many, a value other than 99999.0 whose pressure is 99999.0 is plotted at that pressure, because the pressure mask is never applied. |
| Dashboard.Figure | agro_explorer.py:172-199 | One profile's chart. It fails only with IndexError and holds at most two traces. |
| Dashboard.FigureSpec | agro_explorer.py:172-199 | When the level arrays have one length, a chart always gets built. It holds the temperature trace, when some temperature is not fill, then the salinity trace, when some salinity is not. These are exactly the traces `TraceOf` gives for the two variables. |

## Left out

- The Streamlit page is left out: page setup, caching, sidebar widgets, titles and messages. The model covers only what the widgets are given and what they return. The selected platforms and the picked date range are parameters. The early stop on an empty table is left out.
- The map and the Plotly charts are left out. Only the traces' data is modelled.
- The per-platform grouping of the charts is left out (lines 165-172). The chart of one profile is modelled.
- The summary statistics are left out (lines 205-217). They are floating-point means via `np.nanmean`.
- `main.py` is not part of this model.
- The directory listing and NetCDF/xarray I/O are left out. A file is the sequence of its already-read per-profile values.
- xarray's CF decoding, which `xr.open_dataset` applies by default (line 68), is not modelled. The model reads every variable as stored. JULD is the raw number of days, not a `datetime64`. The 99999.0 and 999999.0 fill values stay numbers and do not become NaN/NaT, so the skip at line 72 and the masks at lines 92-93 and 175-177 see them. PLATFORM_NUMBER stays an array of one-character elements and is not joined into one `S8` string. Under the default decoding, the TypeError finding below would not arise, and the fill comparisons would not match NaN.
- A JULD stored as a 0-d array is a finding. The model follows the documented intent and decodes it like a scalar (see the table below). Only `LoadAsWritten` follows the code as written.
- `DatetimeRangeDates` covers Python's datetime range. pandas' narrower `datetime64[ns]` range and its `NaT` are not modelled.
- Dashboard.Shown: a record without a time is never shown. pandas compares `NaT` as false, but its conversion rules are library behaviour and are not modelled. If every time is missing, the column is not datetime-typed and `.dt` raises. The model does not capture that failure.
- Dashboard.ValidTimes: it keeps the times that are present. pandas' conversion of a missing time to `NaT` is not modelled. `NaT` subclasses `datetime` and would pass the `isinstance` test.
- `today` (line 123) is the system clock. The model takes it as a parameter.
- Floating point is not modelled bit for bit. A `Double` is any real number, NaN, or an infinity. `timedelta(days=j)` is modelled as exact multiplication followed by rounding to the nearest microsecond, ties to even. The model does not capture the binary rounding inside `timedelta`.
- Julian.JulianToDatetime: only scalar, 0-d and 1-d inputs are modelled. Arrays of higher rank are not.
- A multi-character element of a character array is left out. Each element is one byte or one character, as in a NetCDF `S1` array. The `str` rendering of a non-character array is an opaque string.

## Findings

| source | as written | input that shows it | evidently intended | confidence | as-written member | corrected member |
|---|---|---|---|---|---|---|
| agro_explorer.py:40-43 | With the variables read as stored (no CF decoding), `ds["JULD"][i].values` is a 0-d float array. `np.isscalar` rejects it, so it takes the array branch, and iterating over a 0-d array in the comprehension raises TypeError. As a result, every profile that survives the skip aborts the load. | any profile whose JULD, read as stored, is not 999999.0, for example JULD 0.0 | the docstring's "handles 0-d scalars": a 0-d array is decoded like the scalar it holds | medium; not executed; holds only if JULD reaches `julian_to_datetime` as raw float days. With `xr.open_dataset`'s default CF decoding it arrives as a `np.datetime64` scalar, which `np.isscalar` accepts, so this path is not taken | Julian.ZeroDimRejectedAsWritten | Julian.JulianToDatetime |
