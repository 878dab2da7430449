/**
 * The lateness sweep of the script: for every home-departure minute from
 * 08:00 to 09:00 the rider walks to the stop, boards the first bus in
 * timetable order that has not left yet, walks from the destination stop,
 * and is late when that is after the meeting or when no bus is left.
 */
module Lateness {
  import opened Wrappers
  import opened TimeOfDay
  import opened Schedule

  /** Walk to the stop and from the destination stop, given in seconds as in the script. */
  const WalkToBusSeconds := 300
  const WalkFromBusSeconds := 240
  const WalkToBus := WalkToBusSeconds / 60
  const WalkFromBus := WalkFromBusSeconds / 60

  /** Both walks are whole minutes, so counting in minutes loses nothing: 5 and 4 minutes. */
  lemma WalkDurations()
    ensures WalkToBus * 60 == WalkToBusSeconds && WalkToBus == 5
    ensures WalkFromBus * 60 == WalkFromBusSeconds && WalkFromBus == 4
  {
  }

  /** The meeting starts at 09:05. */
  const MeetingTime := 9 * MinutesPerHour + 5

  /** Home departures: 61 consecutive minutes starting at 08:00. */
  const FirstDeparture := 8 * MinutesPerHour
  const DepartureCount := 61

  /** The two clock readings of the script, `09:05` and `08:00`, read as `%H:%M`. */
  lemma ScriptClockTimes()
    ensures ParseHM("09:05") == Some(MeetingTime)
    ensures ParseHM("08:00") == Some(FirstDeparture)
  {
    assert FormatHM(MeetingTime, 2, 2) == "09:05";
    ParseFormatted(MeetingTime, 2, 2);
    assert FormatHM(FirstDeparture, 2, 2) == "08:00";
    ParseFormatted(FirstDeparture, 2, 2);
  }

  /** The home departures in order: 08:00, 08:01, ..., 09:00. */
  function DepartureRange(): (r: seq<int>)
    ensures |r| == DepartureCount && r[0] == FirstDeparture && r[|r| - 1] == 9 * MinutesPerHour
    ensures forall i :: 0 <= i < |r| - 1 ==> r[i + 1] == r[i] + 1
  {
    seq(DepartureCount, i => FirstDeparture + i)
  }

  /**
   * The index of the first trip, in timetable order, that departs no
   * earlier than `zooArrival`, or `None` when every trip has already left.
   */
  function FirstCatchable(trips: seq<Trip>, zooArrival: int): (r: Option<nat>)
    ensures r.Some? ==> r.value < |trips| && trips[r.value].dep >= zooArrival
    ensures r.Some? ==> forall j :: 0 <= j < r.value ==> trips[j].dep < zooArrival
    ensures r.None? <==> forall j :: 0 <= j < |trips| ==> trips[j].dep < zooArrival
  {
    if trips == [] then None
    else if trips[0].dep >= zooArrival then Some(0)
    else
      match FirstCatchable(trips[1..], zooArrival)
      case None => None
      case Some(k) => Some(k + 1)
  }

  /**
   * The scan over the timetable: the first trip with `dep >= zooArrival`
   * ends the scan; none found leaves the result `None`.
   */
  method SelectTrip(trips: seq<Trip>, zooArrival: int) returns (chosen: Option<Trip>)
    ensures chosen.Some? <==> FirstCatchable(trips, zooArrival).Some?
    ensures chosen.Some? ==> chosen.value == trips[FirstCatchable(trips, zooArrival).value]
  {
    chosen := None;
    for i := 0 to |trips|
      invariant chosen == None
      invariant forall j :: 0 <= j < i ==> trips[j].dep < zooArrival
    {
      if trips[i].dep >= zooArrival {
        chosen := Some(trips[i]);
        assert FirstCatchable(trips, zooArrival) == Some(i);
        break;
      }
    }
  }

  /** When the rider reaches the destination stop (after the walk), if a bus is caught at all. */
  function MeetingArrival(trips: seq<Trip>, homeDeparture: int): (r: Option<int>)
    ensures r.Some? <==> exists k :: 0 <= k < |trips| && trips[k].dep >= homeDeparture + WalkToBus
    ensures r.Some? ==>
      exists k :: 0 <= k < |trips| && trips[k].dep >= homeDeparture + WalkToBus &&
        (forall j :: 0 <= j < k ==> trips[j].dep < homeDeparture + WalkToBus) &&
        r.value == trips[k].arr + WalkFromBus
  {
    match FirstCatchable(trips, homeDeparture + WalkToBus)
    case None => None
    case Some(k) => Some(trips[k].arr + WalkFromBus)
  }

  /** The script's test: late when no bus was caught or the arrival is after the meeting. */
  predicate IsLate(meetingArrival: Option<int>) {
    meetingArrival.None? || meetingArrival.value > MeetingTime
  }

  /** The entry the script appends for one home departure: 1 for late, 0 for on time. */
  function LateFlag(trips: seq<Trip>, homeDeparture: int): (flag: int)
    ensures flag == 0 || flag == 1
    ensures flag == 0 ==> MeetingArrival(trips, homeDeparture).Some?
  {
    if IsLate(MeetingArrival(trips, homeDeparture)) then 1 else 0
  }

  /**
   * On time exactly when some trip departs no earlier than the rider
   * reaches the stop, every earlier trip in the timetable departs before,
   * and that trip's arrival plus the walk is no later than the meeting.
   */
  lemma OnTimeIff(trips: seq<Trip>, homeDeparture: int)
    ensures LateFlag(trips, homeDeparture) == 0 <==>
      exists k :: 0 <= k < |trips| && trips[k].dep >= homeDeparture + WalkToBus &&
        (forall j :: 0 <= j < k ==> trips[j].dep < homeDeparture + WalkToBus) &&
        trips[k].arr + WalkFromBus <= MeetingTime
  {
    var zooArrival := homeDeparture + WalkToBus;
    if LateFlag(trips, homeDeparture) == 0 {
      var k := FirstCatchable(trips, zooArrival).value;
      assert trips[k].dep >= zooArrival;
    }
  }

  /** Late whenever every trip has left before the rider reaches the stop; in particular with no trips. */
  lemma LateWhenNoBusLeft(trips: seq<Trip>, homeDeparture: int)
    requires forall j :: 0 <= j < |trips| ==> trips[j].dep < homeDeparture + WalkToBus
    ensures LateFlag(trips, homeDeparture) == 1
  {
  }

  /** A bus that departs in the very minute the rider reaches the stop is caught. */
  lemma CatchesBusLeavingOnArrival(trips: seq<Trip>, homeDeparture: int, k: nat)
    requires k < |trips| && trips[k].dep == homeDeparture + WalkToBus
    requires forall j :: 0 <= j < k ==> trips[j].dep < homeDeparture + WalkToBus
    ensures MeetingArrival(trips, homeDeparture) == Some(trips[k].arr + WalkFromBus)
  {
  }

  /** The script's timetable lists its arrivals in increasing order, so `LateStaysLate` applies to it. */
  lemma ScheduleArrivalsSorted()
    ensures forall i, j :: 0 <= i < j < |ScheduleTrips| ==> ScheduleTrips[i].arr <= ScheduleTrips[j].arr
  {
  }

  /**
   * Leaving later never helps when arrivals follow timetable order: a rider
   * who is late leaving at `early` is also late leaving at any later minute.
   */
  lemma LateStaysLate(trips: seq<Trip>, early: int, later: int)
    requires forall i, j :: 0 <= i < j < |trips| ==> trips[i].arr <= trips[j].arr
    requires early <= later
    ensures LateFlag(trips, early) <= LateFlag(trips, later)
  {
    if LateFlag(trips, later) == 0 {
      var k' := FirstCatchable(trips, later + WalkToBus).value;
      var k := FirstCatchable(trips, early + WalkToBus).value;
      assert k <= k';
    }
  }

  /**
   * The sweep: one entry per home departure, in order, each 1 when that
   * departure is late and 0 when it is on time.
   */
  method LatenessCurve(trips: seq<Trip>) returns (lateProbabilities: seq<int>)
    ensures |lateProbabilities| == DepartureCount
    ensures forall i :: 0 <= i < |lateProbabilities| ==>
      lateProbabilities[i] == LateFlag(trips, FirstDeparture + i)
    ensures forall i :: 0 <= i < |lateProbabilities| ==> lateProbabilities[i] in {0, 1}
  {
    var departureRange := DepartureRange();
    lateProbabilities := [];
    for n := 0 to |departureRange|
      invariant |lateProbabilities| == n
      invariant forall i :: 0 <= i < n ==> lateProbabilities[i] == LateFlag(trips, FirstDeparture + i)
      invariant forall i :: 0 <= i < n ==> lateProbabilities[i] in {0, 1}
    {
      var homeDeparture := departureRange[n];
      var zooArrival := homeDeparture + WalkToBus;
      var trip := SelectTrip(trips, zooArrival);
      var meetingArrival := if trip.Some? then Some(trip.value.arr + WalkFromBus) else None;
      if IsLate(meetingArrival) {
        lateProbabilities := lateProbabilities + [1];
      } else {
        lateProbabilities := lateProbabilities + [0];
      }
    }
  }

  /** With the script's timetable, departures up to 08:43 are on time and from 08:44 on late. */
  lemma ScheduleFlags(i: nat)
    requires i < DepartureCount
    ensures LateFlag(ScheduleTrips, FirstDeparture + i) == if i < 44 then 0 else 1
  {
    var zooArrival := FirstDeparture + i + WalkToBus;
    var t := ScheduleTrips;
    if i <= 33 {
      assert FirstCatchable(t, zooArrival) == Some(0);
    } else if i <= 43 {
      assert t[0].dep < zooArrival;
      assert FirstCatchable(t, zooArrival) == Some(1);
    } else if i <= 51 {
      assert t[0].dep < zooArrival && t[1].dep < zooArrival && t[2].dep >= zooArrival;
      assert FirstCatchable(t, zooArrival) == Some(2);
    } else {
      assert t[0].dep < zooArrival && t[1].dep < zooArrival && t[2].dep < zooArrival;
      assert t[3].dep >= zooArrival;
      assert FirstCatchable(t, zooArrival) == Some(3);
    }
  }

  /**
   * The boundary cases of the script's timetable: leaving at 08:43 reaches
   * the stop at 08:48 just as the second bus leaves and arrives exactly at
   * 09:05, which is on time; leaving at 08:47 catches the third bus and is late.
   */
  lemma ScheduleBoundaries()
    ensures MeetingArrival(ScheduleTrips, 8 * MinutesPerHour + 43) == Some(MeetingTime)
    ensures LateFlag(ScheduleTrips, 8 * MinutesPerHour + 43) == 0
    ensures MeetingArrival(ScheduleTrips, 8 * MinutesPerHour + 47) == Some(9 * MinutesPerHour + 13)
    ensures LateFlag(ScheduleTrips, 8 * MinutesPerHour + 47) == 1
  {
    CatchesBusLeavingOnArrival(ScheduleTrips, 8 * MinutesPerHour + 43, 1);
    var t := ScheduleTrips;
    assert t[0].dep < 8 * MinutesPerHour + 52 && t[1].dep < 8 * MinutesPerHour + 52;
    assert t[2].dep >= 8 * MinutesPerHour + 52;
    assert FirstCatchable(t, 8 * MinutesPerHour + 52) == Some(2);
  }

  /**
   * The whole script: parse the timetable text into `trip_times`, then
   * sweep the departures into `late_probabilities`. The timetable yields
   * its five trips in line order, and the sweep gives 44 on-time entries
   * (08:00 to 08:43) followed by 17 late ones (08:44 to 09:00).
   */
  method Run() returns (tripTimes: seq<Trip>, lateProbabilities: seq<int>)
    ensures tripTimes == ScheduleTrips
    ensures |lateProbabilities| == DepartureCount
    ensures forall i :: 0 <= i < DepartureCount ==> lateProbabilities[i] == if i < 44 then 0 else 1
  {
    var parsed := ParseSchedule(ScheduleText);
    ScheduleTextParses();
    // The hard-coded timetable always parses, so the script never raises here.
    assert parsed.Success?;
    tripTimes := parsed.value;
    assert tripTimes == ScheduleTrips;
    lateProbabilities := LatenessCurve(tripTimes);
    forall i | 0 <= i < DepartureCount
      ensures lateProbabilities[i] == if i < 44 then 0 else 1
    {
      ScheduleFlags(i);
    }
  }
}
