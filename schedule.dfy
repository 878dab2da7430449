/**
 * The bus timetable: its text, one trip per line written `k. H:MM - H:MM`,
 * and the loop that turns the text into the list of trips.
 */
module Schedule {
  import opened Wrappers
  import opened Text
  import opened TimeOfDay

  /** One bus trip: departure from the rider's stop and arrival at the destination stop, in minutes. */
  datatype Trip = Trip(dep: int, arr: int)

  /** What parsing a line raises instead of producing a trip. */
  datatype ParseError =
    | NoFieldAfterDot             // no field after the first `.`: an IndexError
    | NoFieldAfterDash            // no second `-` piece: an IndexError
    | TimeMismatch(text: string)  // `text` does not match `%H:%M`: a ValueError

  /**
   * The timetable text of the script: a triple-quoted literal that opens
   * and closes with a line break, one line per trip. The concatenation is
   * grouped the way `Join` builds it, which keeps the proofs about it short.
   */
  const ScheduleText: string :=
    "\n" + (
      "1. 8:38 - 8:51" + "\n" + (
      "2. 8:48 - 9:01" + "\n" + (
      "3. 8:56 - 9:09" + "\n" + (
      "4. 9:06 - 9:19" + "\n" + (
      "5. 9:16 - 9:29"))))) + "\n"

  /** The trips that timetable describes, in line order. */
  const ScheduleTrips: seq<Trip> :=
    [Trip(518, 531), Trip(528, 541), Trip(536, 549), Trip(546, 559), Trip(556, 569)]

  /**
   * One line: the field between the first and second `.`, stripped and
   * split on `-`; the stripped first and second pieces are read with
   * `%H:%M`. Errors come in the order the script meets them: the missing
   * `.` field, then the departure time, then the missing `-` piece, then
   * the arrival time.
   */
  function ParseLine(line: string): (r: Result<Trip, ParseError>)
    ensures r.Success? ==> '.' in line
    ensures r.Success? ==> 0 <= r.value.dep < MinutesPerDay && 0 <= r.value.arr < MinutesPerDay
  {
    var byDot := SplitOn(line, '.');
    if |byDot| < 2 then Failure(NoFieldAfterDot) else ParseTimes(byDot[1])
  }

  /** The field after the `.`: stripped and split on `-`, then the first two pieces stripped and read. */
  function ParseTimes(field: string): (r: Result<Trip, ParseError>)
    ensures r.Success? ==> 0 <= r.value.dep < MinutesPerDay && 0 <= r.value.arr < MinutesPerDay
  {
    var parts := SplitOn(Strip(field), '-');
    var depText := Strip(parts[0]);
    match ParseHM(depText)
    case None => Failure(TimeMismatch(depText))
    case Some(dep) =>
      if |parts| < 2 then Failure(NoFieldAfterDash)
      else
        var arrText := Strip(parts[1]);
        match ParseHM(arrText)
        case None => Failure(TimeMismatch(arrText))
        case Some(arr) => Success(Trip(dep, arr))
  }

  /** A line without a `.` fails before any time is read. */
  lemma NoDotFails(line: string)
    requires '.' !in line
    ensures ParseLine(line) == Failure(NoFieldAfterDot)
  {
  }

  /** A line whose field after the `.` holds no `-` never yields a trip. */
  lemma NoDashFails(line: string)
    requires '.' in line
    requires '-' !in SplitOn(line, '.')[1]
    ensures ParseLine(line).Failure?
  {
    var field := SplitOn(line, '.')[1];
    var stripped := Strip(field);
    TrimLeftDropsSpace(field);
    TrimRightDropsSpace(TrimLeft(field));
    assert forall i :: 0 <= i < |stripped| ==> stripped[i] == field[|field| - |TrimLeft(field)| + i];
    assert '-' !in stripped;
  }

  /** The pieces of the stripped field after the first `.`, split on `-`. */
  function DashParts(line: string): seq<string>
    requires '.' in line
  {
    SplitOn(Strip(SplitOn(line, '.')[1]), '-')
  }

  /**
   * Only `%H:%M` halves are accepted: a parsed line has a `-` after its
   * `.`, and the stripped text on each side of it spells the trip's time.
   */
  lemma ParsedLineTimes(line: string, trip: Trip)
    requires ParseLine(line) == Success(trip)
    ensures '.' in line && |DashParts(line)| >= 2
    ensures exists hourWidth: nat, minuteWidth: nat ::
      Fits(trip.dep / MinutesPerHour, hourWidth) && Fits(trip.dep % MinutesPerHour, minuteWidth) &&
      Strip(DashParts(line)[0]) == FormatHM(trip.dep, hourWidth, minuteWidth)
    ensures exists hourWidth: nat, minuteWidth: nat ::
      Fits(trip.arr / MinutesPerHour, hourWidth) && Fits(trip.arr % MinutesPerHour, minuteWidth) &&
      Strip(DashParts(line)[1]) == FormatHM(trip.arr, hourWidth, minuteWidth)
  {
    var parts := DashParts(line);
    ParsedIsFormatted(Strip(parts[0]), trip.dep);
    ParsedIsFormatted(Strip(parts[1]), trip.arr);
  }

  /** A timetable line `tag. H:MM - H:MM` for `trip`, with the given hour-field widths. */
  function FormatLine(tag: string, trip: Trip, depHourWidth: nat, arrHourWidth: nat): string
    requires 0 <= trip.dep < MinutesPerDay && 0 <= trip.arr < MinutesPerDay
    requires Fits(trip.dep / MinutesPerHour, depHourWidth) && Fits(trip.arr / MinutesPerHour, arrHourWidth)
  {
    tag + ". " + FormatHM(trip.dep, depHourWidth, 2) + " - " + FormatHM(trip.arr, arrHourWidth, 2)
  }

  /** Digits and colons only, with a digit at each end: the characters of `FormatHM`'s output. */
  predicate TimeShaped(s: string) {
    s != [] && IsDigit(s[0]) && IsDigit(s[|s| - 1]) &&
    forall i :: 0 <= i < |s| ==> IsDigit(s[i]) || s[i] == ':'
  }

  lemma FormattedIsTimeShaped(t: int, hourWidth: nat, minuteWidth: nat)
    requires 0 <= t < MinutesPerDay
    requires Fits(t / MinutesPerHour, hourWidth) && Fits(t % MinutesPerHour, minuteWidth)
    ensures TimeShaped(FormatHM(t, hourWidth, minuteWidth))
  {
  }

  lemma TimeShapedAvoids(s: string)
    requires TimeShaped(s)
    ensures '.' !in s && '-' !in s && !IsSpace(s[0]) && !IsSpace(s[|s| - 1])
  {
  }

  /** `" a - b".strip().split("-")` is `["a ", " b"]`. */
  lemma SplitFormattedTimes(a: string, b: string)
    requires TimeShaped(a) && TimeShaped(b)
    ensures SplitOn(Strip(" " + a + " - " + b), '-') == [a + " ", " " + b]
  {
    TimeShapedAvoids(a);
    TimeShapedAvoids(b);
    var times := a + " - " + b;
    assert " " + a + " - " + b == [' '] + times;
    StripLeadingSpace(' ', times);
    StripUnchanged(times);
    assert times == (a + " ") + ['-'] + (" " + b);
    assert '-' !in a + " " && '-' !in " " + b;
    SplitOnFirst(a + " ", '-', " " + b);
  }

  /** Both pieces of that split strip back to the times. */
  lemma StripFormattedPieces(a: string, b: string)
    requires TimeShaped(a) && TimeShaped(b)
    ensures Strip(a + " ") == a && Strip(" " + b) == b
  {
    TimeShapedAvoids(a);
    TimeShapedAvoids(b);
    StripTrailingSpace(a, ' ');
    StripUnchanged(a);
    StripLeadingSpace(' ', b);
    StripUnchanged(b);
  }

  /** The times of a formatted line, after its `.`, read back as the trip. */
  lemma ParseFormattedTimes(trip: Trip, depHourWidth: nat, arrHourWidth: nat)
    requires 0 <= trip.dep < MinutesPerDay && 0 <= trip.arr < MinutesPerDay
    requires Fits(trip.dep / MinutesPerHour, depHourWidth) && Fits(trip.arr / MinutesPerHour, arrHourWidth)
    ensures ParseTimes(" " + FormatHM(trip.dep, depHourWidth, 2) + " - " + FormatHM(trip.arr, arrHourWidth, 2))
      == Success(trip)
  {
    var a := FormatHM(trip.dep, depHourWidth, 2);
    var b := FormatHM(trip.arr, arrHourWidth, 2);
    FormattedIsTimeShaped(trip.dep, depHourWidth, 2);
    FormattedIsTimeShaped(trip.arr, arrHourWidth, 2);
    SplitFormattedTimes(a, b);
    StripFormattedPieces(a, b);
    ParseFormatted(trip.dep, depHourWidth, 2);
    ParseFormatted(trip.arr, arrHourWidth, 2);
  }

  /**
   * Round trip: a line whose tag holds no `.` reads back as the trip it
   * was written from: `dep` is the time before the `-`, `arr` the time after it.
   */
  lemma ParseFormattedLine(tag: string, trip: Trip, depHourWidth: nat, arrHourWidth: nat)
    requires '.' !in tag
    requires 0 <= trip.dep < MinutesPerDay && 0 <= trip.arr < MinutesPerDay
    requires Fits(trip.dep / MinutesPerHour, depHourWidth) && Fits(trip.arr / MinutesPerHour, arrHourWidth)
    ensures ParseLine(FormatLine(tag, trip, depHourWidth, arrHourWidth)) == Success(trip)
  {
    var a := FormatHM(trip.dep, depHourWidth, 2);
    var b := FormatHM(trip.arr, arrHourWidth, 2);
    FormattedIsTimeShaped(trip.dep, depHourWidth, 2);
    FormattedIsTimeShaped(trip.arr, arrHourWidth, 2);
    var rest := " " + a + " - " + b;
    FormatLineShape(tag, trip, depHourWidth, arrHourWidth);
    NoDotBetweenTimes(a, b);
    SplitOnFirst(tag, '.', rest);
    ParseFormattedTimes(trip, depHourWidth, arrHourWidth);
  }

  lemma FormatLineShape(tag: string, trip: Trip, depHourWidth: nat, arrHourWidth: nat)
    requires 0 <= trip.dep < MinutesPerDay && 0 <= trip.arr < MinutesPerDay
    requires Fits(trip.dep / MinutesPerHour, depHourWidth) && Fits(trip.arr / MinutesPerHour, arrHourWidth)
    ensures FormatLine(tag, trip, depHourWidth, arrHourWidth) ==
      tag + ['.'] + (" " + FormatHM(trip.dep, depHourWidth, 2) + " - " + FormatHM(trip.arr, arrHourWidth, 2))
  {
  }

  lemma NoDotBetweenTimes(a: string, b: string)
    requires TimeShaped(a) && TimeShaped(b)
    ensures '.' !in " " + a + " - " + b
  {
    TimeShapedAvoids(a);
    TimeShapedAvoids(b);
  }

  /** The lines the script iterates over: the stripped text split on line breaks. */
  function Lines(text: string): (lines: seq<string>)
    ensures lines != [] && forall i :: 0 <= i < |lines| ==> '\n' !in lines[i]
    ensures Join(lines, '\n') == Strip(text)
  {
    JoinSplit(Strip(text), '\n');
    SplitOn(Strip(text), '\n')
  }

  /** Line `k` is the first of `lines` that does not parse. */
  predicate FirstFailure(lines: seq<string>, k: int) {
    0 <= k < |lines| && ParseLine(lines[k]).Failure? &&
    forall i :: 0 <= i < k ==> ParseLine(lines[i]).Success?
  }

  /**
   * The parsing loop: every line is parsed in order and its trip appended;
   * the first line that fails stops the loop with that line's error.
   */
  method ParseSchedule(text: string) returns (r: Result<seq<Trip>, ParseError>)
    ensures r.Success? ==> |r.value| == |Lines(text)|
    ensures r.Success? ==> forall i :: 0 <= i < |r.value| ==> ParseLine(Lines(text)[i]) == Success(r.value[i])
    ensures r.Failure? ==> exists k :: FirstFailure(Lines(text), k) && ParseLine(Lines(text)[k]) == Failure(r.error)
  {
    var lines := Lines(text);
    var trips: seq<Trip> := [];
    for n := 0 to |lines|
      invariant |trips| == n
      invariant forall i :: 0 <= i < n ==> ParseLine(lines[i]) == Success(trips[i])
    {
      var trip := ParseLine(lines[n]);
      if trip.Failure? {
        assert FirstFailure(lines, n);
        return Failure(trip.error);
      }
      trips := trips + [trip.value];
    }
    return Success(trips);
  }

  /** The lines of the timetable, without the line breaks. */
  const ScheduleLines: seq<string> :=
    ["1. 8:38 - 8:51", "2. 8:48 - 9:01", "3. 8:56 - 9:09", "4. 9:06 - 9:19", "5. 9:16 - 9:29"]

  /** The timetable text is its lines, joined by line breaks, between two line breaks. */
  lemma ScheduleTextShape()
    ensures ScheduleText == ['\n'] + Join(ScheduleLines, '\n') + ['\n']
  {
  }

  lemma JoinedScheduleEnds(body: string)
    requires body == Join(ScheduleLines, '\n')
    ensures body != [] && !IsSpace(body[0]) && !IsSpace(body[|body| - 1])
  {
  }

  lemma StripScheduleText()
    ensures Strip(ScheduleText) == Join(ScheduleLines, '\n')
  {
    var body := Join(ScheduleLines, '\n');
    ScheduleTextShape();
    JoinedScheduleEnds(body);
    StripWrapped('\n', body);
  }

  /** Stripping the script's timetable and splitting it on line breaks gives its five lines. */
  lemma ScheduleTextLines()
    ensures Lines(ScheduleText) == ScheduleLines
  {
    LinesOfScheduleText();
    SplitScheduleBody();
  }

  lemma LinesOfScheduleText()
    ensures Lines(ScheduleText) == SplitOn(Join(ScheduleLines, '\n'), '\n')
  {
    StripScheduleText();
  }

  lemma SplitScheduleBody()
    ensures SplitOn(Join(ScheduleLines, '\n'), '\n') == ScheduleLines
  {
    assert forall i :: 0 <= i < |ScheduleLines| ==> '\n' !in ScheduleLines[i];
    SplitJoin(ScheduleLines, '\n');
  }

  // Each timetable line is its trip written with its tag and one-digit hours.
  lemma FirstLineFormatted() ensures ScheduleLines[0] == FormatLine("1", Trip(518, 531), 1, 1) {}
  lemma SecondLineFormatted() ensures ScheduleLines[1] == FormatLine("2", Trip(528, 541), 1, 1) {}
  lemma ThirdLineFormatted() ensures ScheduleLines[2] == FormatLine("3", Trip(536, 549), 1, 1) {}
  lemma FourthLineFormatted() ensures ScheduleLines[3] == FormatLine("4", Trip(546, 559), 1, 1) {}
  lemma FifthLineFormatted() ensures ScheduleLines[4] == FormatLine("5", Trip(556, 569), 1, 1) {}

  lemma ScheduleLinesFormatted(i: nat)
    requires i < |ScheduleLines|
    ensures ScheduleLines[i] == FormatLine(["12345"[i]], ScheduleTrips[i], 1, 1)
  {
    if i == 0 { FirstLineFormatted(); }
    else if i == 1 { SecondLineFormatted(); }
    else if i == 2 { ThirdLineFormatted(); }
    else if i == 3 { FourthLineFormatted(); }
    else { FifthLineFormatted(); }
  }

  /** Each timetable line parses to the trip of the same position. */
  lemma ScheduleLineParses(i: nat)
    requires i < |ScheduleLines|
    ensures ParseLine(ScheduleLines[i]) == Success(ScheduleTrips[i])
  {
    ScheduleLinesFormatted(i);
    ParseFormattedLine(["12345"[i]], ScheduleTrips[i], 1, 1);
  }

  /** The script's timetable text splits into five lines, each a trip of `ScheduleTrips`. */
  lemma ScheduleTextParses()
    ensures |Lines(ScheduleText)| == |ScheduleTrips|
    ensures forall i :: 0 <= i < |ScheduleTrips| ==> ParseLine(Lines(ScheduleText)[i]) == Success(ScheduleTrips[i])
  {
    ScheduleTextLines();
    forall i | 0 <= i < |ScheduleTrips|
      ensures ParseLine(ScheduleLines[i]) == Success(ScheduleTrips[i])
    {
      ScheduleLineParses(i);
    }
  }
}
