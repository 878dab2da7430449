# Bus lateness script, modelled in Dafny

The script `main.py` answers one question: if I leave home at a given minute between 08:00 and
09:00, will I reach a 09:05 meeting on time? It works in three steps:

- It parses a hard-coded bus timetable. Each line has the form `k. H:MM - H:MM` and gives a
  departure from the rider's stop and an arrival at the destination stop.
- For every home-departure minute, the rider walks 5 minutes to the stop. The script scans the
  timetable in order and takes the first bus that has not yet left (`dep >= zoo_arrival`).
- The rider then walks 4 minutes from the destination stop. The script appends `1` (late) when
  no bus was found or the meeting arrival is after 09:05, and `0` otherwise.

The model is split into five modules:

- `Wrappers`: the `Option` and `Result` types.
- `Text`: Python's `str.strip()` and `str.split(sep)` for a one-character separator, with
  `split`'s round trips against `sep.join`.
- `TimeOfDay`: `datetime.strptime(s, "%H:%M")` as minutes since midnight, or failure.
- `Schedule`: parsing one timetable line, the loop that builds the trip list, and the script's
  timetable text.
- `Lateness`: the first-catchable-bus scan, the late test, the 61-minute sweep, and the whole
  script, including its concrete outcome.

Times of day are integer minutes since midnight. Every value strptime produces shares the same
default date, so comparing datetimes is the same as comparing these integers. The sums the script
forms (a time plus a few minutes) are unbounded integers, and that keeps their order just as
`datetime` does when it rolls into the next day.

Parse errors are values of `ParseError`, in the order Python would raise them:

1. A line with no `.` fails with `NoFieldAfterDot` (an IndexError).
2. A departure that does not match `%H:%M` fails with `TimeMismatch` (a ValueError).
3. A field with no second `-` piece fails with `NoFieldAfterDash` (an IndexError).
4. An arrival that does not match `%H:%M` fails with `TimeMismatch`.

The first failing line ends the parsing loop with its error.

`main.py` has no randomness: each entry of `late_probabilities` is a deterministic 0 or 1.

## Model

| member | source | states |
|---|---|---|
| Text.TrimLeftDropsSpace | main.py:15-18 | the left half of `strip()` keeps a suffix of the string and removes only whitespace characters |
| Text.TrimRightDropsSpace | main.py:15-18 | the right half of `strip()` keeps a prefix of the string and removes only whitespace characters |
| Text.StripWrapped | main.py:15 | a text with one whitespace character on each side and non-space ends strips back to its inside |
| Text.Strip | main.py:15-18 | `strip()` never lengthens a string, and neither end of its result is whitespace |
| Text.StripDropsSpace | main.py:15-18 | `strip()` keeps one contiguous run of the string, and every character removed before or after it is whitespace |
| Text.IndexOf | main.py:16 | the position found holds the separator, and no earlier position does |
| Text.SplitOn | main.py:15-16 | `split(sep)` gives at least one piece; no piece contains the separator; there is exactly one piece iff the separator does not occur |
| Text.JoinSplit | main.py:15-16 | joining the pieces of a split with the separator gives back the original string |
| Text.SplitJoin | main.py:15-16 | splitting a join of separator-free pieces gives back those pieces |
| TimeOfDay.ParseField | main.py:17-18 | an `%H` or `%M` field accepted by strptime has a value no larger than 23 or 59 |
| TimeOfDay.ParseHM | main.py:17-18 | a time accepted by `%H:%M` contains a colon and is a minute of the day (0 to 1439) |
| TimeOfDay.FormatHM | main.py:17-18 | a written time of day is digits and a colon, with a digit at each end |
| TimeOfDay.ParseFormatted | main.py:17-18 | every time of day, written with one- or two-digit fields, is read back by `%H:%M` as itself |
| TimeOfDay.ParsedIsFormatted | main.py:17-18 | whatever `%H:%M` accepts is a one- or two-digit spelling of the time it returns |
| Schedule.ParseLine | main.py:16-18 | a line that yields a trip contains a `.`, and both of its times are minutes of the day |
| Schedule.ParseTimes | main.py:16-18 | a field that yields a trip gives a departure and an arrival that are minutes of the day |
| Schedule.NoDotFails | main.py:16 | a line without `.` fails with the index error, before any time is read |
| Schedule.NoDashFails | main.py:16-18 | a line whose field after the `.` holds no `-` never yields a trip |
| Schedule.ParsedLineTimes | main.py:16-18 | a parsed line has a `-` after its `.`, and the stripped texts before and after the `-` spell the trip's departure and arrival |
| Schedule.ParseFormattedLine | main.py:16-19 | a line `tag. H:MM - H:MM` written for a trip parses back to exactly that trip, departure before the `-` and arrival after it |
| Schedule.Lines | main.py:15 | the lines of a text are free of line breaks, and joined with line breaks they give back the stripped text |
| Schedule.ParseSchedule | main.py:14-19 | on success there is one trip per line of the stripped text, in line order, each the parse of its line; on failure the error is that of the first line that does not parse |
| Schedule.ScheduleTextLines | main.py:5-15 | the stripped timetable text splits into its five lines |
| Schedule.ScheduleLineParses | main.py:5-18 | each timetable line parses to the trip at the same position |
| Schedule.ScheduleTextParses | main.py:5-19 | the timetable text gives five lines, each parsing to its trip: 08:38-08:51, 08:48-09:01, 08:56-09:09, 09:06-09:19, 09:16-09:29 |
| Lateness.WalkDurations | main.py:23-24 | the walks of 300 and 240 seconds are exactly 5 and 4 whole minutes |
| Lateness.ScriptClockTimes | main.py:22-27 | the clock readings `09:05` and `08:00`, read with `%H:%M`, are the meeting time and the first home departure |
| Lateness.DepartureRange | main.py:27 | 61 home departures, from 08:00 to 09:00, each one minute after the one before |
| Lateness.FirstCatchable | main.py:34-37 | the index returned is the first trip in list order with `dep >= zoo_arrival`, and every earlier trip departs before; it is `None` iff every trip departs before |
| Lateness.SelectTrip | main.py:32-37 | the scan with `break` finds a trip iff a catchable trip exists, and the trip it returns is the first catchable one |
| Lateness.MeetingArrival | main.py:31-37 | the rider reaches the meeting iff some trip departs no earlier than home departure plus 5 minutes, and then at the first such trip's arrival plus 4 minutes |
| Lateness.LateFlag | main.py:39-42 | the appended entry is 0 or 1, and 0 only when a bus was caught |
| Lateness.OnTimeIff | main.py:22-42 | the late test `IsLate` gives entry 0 iff some trip is the first with `dep >= home + 5` and its arrival plus 4 minutes is no later than 09:05 |
| Lateness.LateWhenNoBusLeft | main.py:32-40 | when every trip departs before the rider reaches the stop, there is no meeting arrival and the late test `IsLate` makes the outcome late (1) |
| Lateness.CatchesBusLeavingOnArrival | main.py:35-36 | a bus that departs in the very minute the rider reaches the stop is caught |
| Lateness.LateStaysLate | main.py:30-42 | when arrivals are in timetable order, leaving later is never better: late at one minute means late at every later minute |
| Lateness.ScheduleArrivalsSorted | main.py:5-11 | the script's timetable lists its arrivals in increasing order, so `LateStaysLate` applies to it |
| Lateness.LatenessCurve | main.py:27-42 | the sweep gives 61 entries, entry i being the late flag of leaving at 08:00 + i minutes, each 0 or 1 |
| Lateness.ScheduleFlags | main.py:5-42 | with the script's timetable, leaving at 08:00 + i is on time for i < 44 and late from 44 on |
| Lateness.ScheduleBoundaries | main.py:22-39 | leaving at 08:43 catches the 08:48 bus as it leaves and arrives exactly at 09:05, which is on time; leaving at 08:47 arrives at 09:13, which is late |
| Lateness.Run | main.py:5-42 | the script parses five trips in line order and produces 44 zeros (08:00 to 08:43) followed by 17 ones (08:44 to 09:00) |

## Left out

- Plotting: `matplotlib` is imported but never used, so there is nothing to model.
- `datetime` objects: times are minutes since midnight of strptime's default date. Seconds and dates are not modelled, because every value in the script is a whole minute on that one date.
- TimeOfDay.ParseHM: Python's `\d` in strptime's pattern also accepts non-ASCII decimal digits (for example Arabic-Indic digits). The model accepts ASCII digits `0`-`9` only.
- Text.SplitOn: the separator is one character, which is all the script uses. Multi-character separators and `split()` with no argument are not modelled.
- Schedule.ParseSchedule: an error is returned as a `Failure` value rather than raised. The script would stop with a traceback at that point.
- Lateness.Run: it states the outcome for the script's own timetable and constants only. Other timetables are covered by `LatenessCurve` and the lemmas beside it.
- Random bus delays and Monte Carlo averaging are not in `main.py`, so the model does not have them.
