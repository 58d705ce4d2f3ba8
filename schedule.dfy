/** The departure table and the arrival-time arithmetic of the station
    display: `getDepartureTime` looks a station up in a fixed table of
    12-hour times, and `getArrivalTime` parses that time, adds the travel
    time in whole minutes and prints the sum again on a 12-hour clock, with
    the display's own rules for the hour and the am/pm suffix. */
module Schedule {
  import opened Results
  import opened JavaInt

  /** The departure time of every listed station. */
  const DepartureTimes: map<string, string> := map[
    "Bugapest" := "9:35am",
    "Dubay" := "10:30am",
    "Berlint" := "8:25pm",
    "Mosbull" := "6:00pm",
    "Cayro" := "6:40am",
    "Bostin" := "10:25am",
    "Los Angelos" := "12:30pm",
    "Dome" := "1:30pm",
    "Takyo" := "3:35pm",
    "Unstabul" := "4:45pm",
    "Chicargo" := "7:25am",
    "Loondun" := "2:00pm"
  ]

  /** The departure time written for a station missing from the table. */
  const NotAvailable: string := "N/A"

  /** The shape of every listed departure time: an hour from 1 to 12
      without a leading zero, a colon, two minute digits from 00 to 59, then
      "am" or "pm". */
  predicate TimeShape(t: string) {
    (|t| == 6 || |t| == 7) &&
    var k := |t| - 5;
    (if k == 1 then '1' <= t[0] <= '9' else t[0] == '1' && '0' <= t[1] <= '2')
    && t[k] == ':' && '0' <= t[k + 1] <= '5' && IsDigit(t[k + 2]) && t[k + 3..] in {"am", "pm"}
  }

  /** `getDepartureTime`: the table's entry, or "N/A" for any other name. */
  function DepartureTime(station: string): (t: string)
    ensures TimeShape(t) <==> station in DepartureTimes
    ensures station !in DepartureTimes ==> t == NotAvailable
  {
    if station in DepartureTimes then DepartureTimes[station] else NotAvailable
  }

  /** The twelve stations and their times, one by one. */
  lemma DepartureTimeTable()
    ensures DepartureTime("Bugapest") == "9:35am"
    ensures DepartureTime("Dubay") == "10:30am"
    ensures DepartureTime("Berlint") == "8:25pm"
    ensures DepartureTime("Mosbull") == "6:00pm"
    ensures DepartureTime("Cayro") == "6:40am"
    ensures DepartureTime("Bostin") == "10:25am"
    ensures DepartureTime("Los Angelos") == "12:30pm"
    ensures DepartureTime("Dome") == "1:30pm"
    ensures DepartureTime("Takyo") == "3:35pm"
    ensures DepartureTime("Unstabul") == "4:45pm"
    ensures DepartureTime("Chicargo") == "7:25am"
    ensures DepartureTime("Loondun") == "2:00pm"
  {
    assert "Bugapest" in DepartureTimes;
    assert "Dubay" in DepartureTimes;
    assert "Berlint" in DepartureTimes;
    assert "Mosbull" in DepartureTimes;
    assert "Cayro" in DepartureTimes;
    assert "Bostin" in DepartureTimes;
    assert "Los Angelos" in DepartureTimes;
    assert "Dome" in DepartureTimes;
    assert "Takyo" in DepartureTimes;
    assert "Unstabul" in DepartureTimes;
    assert "Chicargo" in DepartureTimes;
    assert "Loondun" in DepartureTimes;
  }

  // ---------------------------------------------------------------------
  // Parsing a time: `split(":")`, `Integer.parseInt` and `substring`.

  /** What the parse throws: `NumberFormatException` from `Integer.parseInt`,
      `ArrayIndexOutOfBoundsException` for a missing piece of the split, and
      `StringIndexOutOfBoundsException` from `substring(0, 2)` on a piece
      shorter than two characters. */
  datatype Failure = NumberFormat | ArrayIndexOutOfBounds | StringIndexOutOfBounds

  /** A parsed time: hours, minutes and whatever text follows the minutes. */
  datatype Clock = Clock(hours: Int32, minutes: Int32, period: string)

  /** Every piece of `s` between colons, empty pieces included. */
  function Pieces(s: string): (ps: seq<string>)
    ensures |ps| >= 1
    ensures forall k :: 0 <= k < |ps| ==> ':' !in ps[k]
    decreases |s|
  {
    if s == [] then [""]
    else
      var rest := Pieces(s[1..]);
      if s[0] == ':' then [""] + rest else [[s[0]] + rest[0]] + rest[1..]
  }

  /** `ps` without its trailing empty pieces. */
  function DropTrailingEmpty(ps: seq<string>): (qs: seq<string>)
    ensures qs <= ps
    ensures qs != [] ==> qs[|qs| - 1] != ""
    ensures forall k :: |qs| <= k < |ps| ==> ps[k] == ""
    decreases |ps|
  {
    if ps != [] && ps[|ps| - 1] == "" then DropTrailingEmpty(ps[..|ps| - 1]) else ps
  }

  /** Java's `s.split(":")`: the string itself when it holds no colon;
      otherwise its pieces between colons with trailing empty pieces removed. */
  function Split(s: string): (parts: seq<string>)
    ensures forall k :: 0 <= k < |parts| ==> ':' !in parts[k]
    ensures ':' !in s ==> parts == [s]
    ensures ':' in s ==> parts <= Pieces(s)
                         && (parts != [] ==> parts[|parts| - 1] != "")
                         && forall k :: |parts| <= k < |Pieces(s)| ==> Pieces(s)[k] == ""
  {
    if ':' !in s then [s] else DropTrailingEmpty(Pieces(s))
  }

  /** `getArrivalTime`, StationGUI.java lines 166-169: hours before the
      first colon, two minute characters after it, and the rest of that
      piece as the period. */
  function ParseTime(t: string): (r: Result<Clock, Failure>)
  {
    var parts := Split(t);
    if |parts| == 0 then Err(ArrayIndexOutOfBounds)
    else
      match ParseInt(parts[0])
      case None => Err(NumberFormat)
      case Some(h) =>
        if |parts| < 2 then Err(ArrayIndexOutOfBounds)
        else if |parts[1]| < 2 then Err(StringIndexOutOfBounds)
        else
          match ParseInt(parts[1][..2])
          case None => Err(NumberFormat)
          case Some(m) => Ok(Clock(h, m, parts[1][2..]))
  }

  lemma {:induction false} PiecesWithoutColon(a: string)
    requires ':' !in a
    ensures Pieces(a) == [a]
    decreases |a|
  {
    if a != [] {
      PiecesWithoutColon(a[1..]);
      assert [a[0]] + a[1..] == a;
    }
  }

  lemma {:induction false} PiecesAtFirstColon(a: string, b: string)
    requires ':' !in a
    ensures Pieces(a + ":" + b) == [a] + Pieces(b)
    decreases |a|
  {
    if a == [] {
      assert a + ":" + b == [':'] + b;
      assert ([':'] + b)[1..] == b;
    } else {
      PiecesAtFirstColon(a[1..], b);
      assert (a + ":" + b)[1..] == a[1..] + ":" + b;
      assert [a[0]] + a[1..] == a;
    }
  }

  /** A time written as hour digits, a colon, two digits and a colon-free
      suffix parses into exactly those three parts. */
  lemma ParseParts(hs: string, mm: string, p: string)
    requires 1 <= |hs| && AllDigits(hs) && DigitsValue(hs) <= MaxInt32
    requires |mm| == 2 && AllDigits(mm)
    requires ':' !in p
    ensures ParseTime(hs + ":" + mm + p) == Ok(Clock(DigitsValue(hs), DigitsValue(mm), p))
  {
    var q := mm + p;
    var t := hs + ":" + mm + p;
    assert t == hs + ":" + q;
    assert ':' !in hs;
    assert ':' !in q;
    PiecesAtFirstColon(hs, q);
    PiecesWithoutColon(q);
    assert t[|hs|] == ':';
    assert Pieces(t) == [hs, q];
    assert Split(t) == [hs, q];
    assert q[..2] == mm && q[2..] == p;
    assert ParseInt(hs) == Some(DigitsValue(hs));
    assert ParseInt(mm) == Some(DigitsValue(mm));
  }

  /** Every well-shaped time parses, into an hour from 1 to 12, minutes
      from 0 to 59 and its "am" or "pm" suffix. */
  lemma ParseShaped(t: string)
    requires TimeShape(t)
    ensures var k := |t| - 5;
            var r := ParseTime(t);
            r == Ok(Clock(DigitsValue(t[..k]), DigitsValue(t[k + 1..k + 3]), t[k + 3..]))
            && 1 <= r.value.hours <= 12 && 0 <= r.value.minutes <= 59 && r.value.period in {"am", "pm"}
  {
    var k := |t| - 5;
    assert AllDigits(t[..k]) && AllDigits(t[k + 1..k + 3]);
    if k == 1 { OneDigitValue(t[..k]); } else { TwoDigitsValue(t[..k]); }
    TwoDigitsValue(t[k + 1..k + 3]);
    assert t == t[..k] + ":" + t[k + 1..k + 3] + t[k + 3..];
    ParseParts(t[..k], t[k + 1..k + 3], t[k + 3..]);
  }

  /** "N/A" does not parse: `Integer.parseInt("N/A")` throws before the
      missing minutes piece is reached. */
  lemma NotAvailableFails()
    ensures ParseTime(NotAvailable) == Err(NumberFormat)
  {
    assert ':' !in NotAvailable;
    assert Split(NotAvailable) == [NotAvailable];
  }

  // ---------------------------------------------------------------------
  // Arithmetic and the 12-hour reading.

  /** No step of hours * 60 + minutes + travel leaves the `int` range. */
  predicate SumFits(hours: int, minutes: int, travel: int) {
    MinInt32 <= hours * 60 <= MaxInt32 && MinInt32 <= hours * 60 + minutes <= MaxInt32
    && MinInt32 <= hours * 60 + minutes + travel <= MaxInt32
  }

  /** `getArrivalTime`, StationGUI.java lines 172-175: minutes since 0:00
      at arrival, each step in Java `int` arithmetic; `travel` is the travel
      time already cast to `int`. */
  function ArrivalMinutes(hours: Int32, minutes: Int32, travel: Int32): (total: Int32)
    ensures SumFits(hours, minutes, travel) ==> total == hours * 60 + minutes + travel
    ensures (hours * 60 + minutes + travel - total) % Modulus32 == 0
  {
    var a := Wrap32(hours * 60);
    var b := Wrap32(a + minutes);
    var total := Wrap32(b + travel);
    MultiplesAdd(hours * 60 - a, a + minutes - b);
    MultiplesAdd(hours * 60 - b + minutes, b + travel - total);
    total
  }

  /** The arrival as the display shows it: hour, minutes and period. */
  datatype Reading = Reading(hours: int, minutes: int, period: string)

  /** `getArrivalTime`, StationGUI.java lines 178-191: split the total into
      hours and minutes, then pick the period and reduce the hour. */
  function TwelveHour(total: int, departurePeriod: string): (r: Reading)
  {
    var h := Div(total, 60);
    var m := Rem(total, 60);
    if h >= 12 then Reading(if h > 12 then Rem(h, 12) else h, m, "pm")
    else if h == 0 then Reading(12, m, departurePeriod)
    else Reading(h, m, "am")
  }

  /** `getArrivalTime`, StationGUI.java line 194: the hour, a colon, the
      minutes padded to two characters with a leading zero when below ten,
      then the period. */
  function Render(r: Reading): string {
    ToString(r.hours) + ":" + Padded(r.minutes) + r.period
  }

  function Padded(m: int): string {
    (if m < 10 then "0" else "") + ToString(m)
  }

  /** `getArrivalTime`, StationGUI.java lines 172-194, for a parsed
      departure: the printed arrival. */
  function ClockArrival(c: Clock, travel: Int32): string {
    Render(TwelveHour(ArrivalMinutes(c.hours, c.minutes, travel), c.period))
  }

  /** The rest of `getArrivalTime` once the departure string is known. */
  function ArrivalFromDeparture(departure: string, travel: Int32): (r: Result<string, Failure>)
  {
    match ParseTime(departure)
    case Err(e) => Err(e)
    case Ok(c) => Ok(ClockArrival(c, travel))
  }

  /** `getArrivalTime(station, travelTime)`, with `travel` the result of the
      `(int)` cast of the travel time. */
  function ArrivalTime(station: string, travel: Int32): (r: Result<string, Failure>)
  {
    ArrivalFromDeparture(DepartureTime(station), travel)
  }

  // ---------------------------------------------------------------------
  // Properties of the arrival time.

  /** Every listed departure parses into an hour from 1 to 12, minutes from
      0 to 59 and an "am" or "pm" suffix. */
  lemma ListedDepartureParses(station: string)
    requires station in DepartureTimes
    ensures var r := ParseTime(DepartureTime(station));
            r.Ok? && 1 <= r.value.hours <= 12 && 0 <= r.value.minutes <= 59
            && r.value.period in {"am", "pm"}
  {
    ParseShaped(DepartureTime(station));
  }

  /** A station missing from the table has no arrival time: the parse of
      "N/A" throws. */
  lemma ArrivalDefinedIffListed(station: string, travel: Int32)
    ensures ArrivalTime(station, travel).Ok? <==> station in DepartureTimes
    ensures station !in DepartureTimes ==> ArrivalTime(station, travel) == Err(NumberFormat)
  {
    if station in DepartureTimes {
      ListedDepartureParses(station);
    } else {
      NotAvailableFails();
    }
  }

  /** The minutes shown are the total modulo 60. */
  lemma ReadingMinutes(total: Int32, departurePeriod: string)
    requires 0 <= total
    ensures var r := TwelveHour(total, departurePeriod);
            r.minutes == total % 60 && 0 <= r.minutes < 60
  {
  }

  /** The period is "pm" from the twelfth hour on, "am" in hours 1 to 11,
      and the departure's own suffix only in hour 0. */
  lemma ReadingPeriod(total: Int32, departurePeriod: string)
    requires 0 <= total
    ensures var r := TwelveHour(total, departurePeriod);
            var h := total / 60;
            (h >= 12 ==> r.period == "pm") && (1 <= h < 12 ==> r.period == "am")
            && (h == 0 ==> r.period == departurePeriod)
  {
  }

  /** The hour shown: 0 becomes 12, 12 stays, hours above 12 are reduced
      modulo 12 (so 24 shows as 0), and 1 to 11 are unchanged. */
  lemma ReadingHour(total: Int32, departurePeriod: string)
    requires 0 <= total
    ensures var r := TwelveHour(total, departurePeriod);
            var h := total / 60;
            0 <= r.hours <= 12
            && (h == 0 ==> r.hours == 12)
            && (h == 12 ==> r.hours == 12)
            && (h > 12 ==> r.hours == h % 12)
            && (1 <= h < 12 ==> r.hours == h)
            && (r.hours == 0 <==> h >= 24 && h % 12 == 0)
  {
  }

  /** The hour of the day that a 12-hour reading denotes. */
  function HourOfDay(r: Reading): int {
    r.hours % 12 + (if r.period == "pm" then 12 else 0)
  }

  /** From 1:00 up to midnight the reading denotes the right hour of the day;
      from the 24th hour on it keeps saying "pm" and only the hour modulo 12
      survives. */
  lemma ReadingDenotesHour(total: Int32, departurePeriod: string)
    requires 60 <= total
    ensures var r := TwelveHour(total, departurePeriod);
            var h := total / 60;
            (h < 24 ==> HourOfDay(r) == h)
            && (h >= 24 ==> r.period == "pm" && r.hours % 12 == h % 12)
  {
  }

  /** A minute count from 0 to 59 is printed as exactly two digits. */
  lemma PaddedTwoDigits(m: int)
    requires 0 <= m < 60
    ensures |Padded(m)| == 2 && AllDigits(Padded(m)) && DigitsValue(Padded(m)) == m
  {
    NatToStringValue(m);
    var s := NatToString(m);
    if m < 10 {
      assert Padded(m) == "0" + s;
      assert Padded(m)[..1] == "0";
    } else {
      assert s == NatToString(m / 10) + [DigitChar(m % 10)];
    }
  }

  /** The printed arrival is the hour's digits, a colon, the minutes as two
      digits and then the period. */
  lemma RenderedFields(total: Int32, departurePeriod: string)
    requires 0 <= total
    ensures var r := TwelveHour(total, departurePeriod);
            var s := Render(r);
            var k := |ToString(r.hours)|;
            |s| >= k + 3 && s[..k] == NatToString(r.hours) && s[k] == ':'
            && AllDigits(s[k + 1..k + 3]) && DigitsValue(s[k + 1..k + 3]) == total % 60
            && s[k + 3..] == r.period
  {
    var r := TwelveHour(total, departurePeriod);
    PaddedTwoDigits(r.minutes);
    var s := Render(r);
    var k := |ToString(r.hours)|;
    assert s == ToString(r.hours) + ":" + Padded(r.minutes) + r.period;
    assert s[k + 1..k + 3] == Padded(r.minutes);
  }

  /** Parsing a printed arrival gives back exactly the printed hour, minutes
      and period, provided the departure suffix holds no colon (a suffix cut
      from a split on ":" never does). */
  lemma RenderParsesBack(total: Int32, departurePeriod: string)
    requires 0 <= total
    requires ':' !in departurePeriod
    ensures var r := TwelveHour(total, departurePeriod);
            ParseTime(Render(r)) == Ok(Clock(r.hours, r.minutes, r.period))
  {
    var r := TwelveHour(total, departurePeriod);
    var hs := NatToString(r.hours);
    NatToStringValue(r.hours);
    PaddedTwoDigits(r.minutes);
    assert Render(r) == hs + ":" + Padded(r.minutes) + r.period;
    ParseParts(hs, Padded(r.minutes), r.period);
  }

  /** Once the departure has parsed, the arrival is printed from the parsed
      clock alone. */
  lemma ParsedArrival(departure: string, c: Clock, travel: Int32)
    requires ParseTime(departure) == Ok(c)
    ensures ArrivalFromDeparture(departure, travel) == Ok(ClockArrival(c, travel))
  {
  }

  /** When no step overflows, the printed arrival is the 12-hour reading of
      hours * 60 + minutes + travel. */
  lemma ClockArrivalSum(c: Clock, travel: Int32, total: int)
    requires SumFits(c.hours, c.minutes, travel)
    requires total == c.hours * 60 + c.minutes + travel
    ensures ClockArrival(c, travel) == Render(TwelveHour(total, c.period))
  {
    assert ArrivalMinutes(c.hours, c.minutes, travel) == total;
  }

  /** Two departures that differ at most in their suffix arrive at the same
      printed time, unless the arrival falls in hour 0 (a total strictly
      between -60 and 60): the suffix plays no part in the sum. */
  lemma DepartureSuffixIgnored(c1: Clock, c2: Clock, travel: Int32)
    requires c1.hours == c2.hours && c1.minutes == c2.minutes
    requires SumFits(c1.hours, c1.minutes, travel)
    requires c1.hours * 60 + c1.minutes + travel >= 60 || c1.hours * 60 + c1.minutes + travel <= -60
    ensures ClockArrival(c1, travel) == ClockArrival(c2, travel)
  {
    var total: int := c1.hours * 60 + c1.minutes + travel;
    ClockArrivalSum(c1, travel, total);
    ClockArrivalSum(c2, travel, total);
  }

  /** For a departure hour from 1 to 12 and a travel time that does not
      overflow, the printed arrival is the reading of the departure's minutes
      since 0:00 plus the travel time, and its period is decided by the
      arrival hour alone: the departure's suffix never shows. */
  lemma DaytimeArrival(c: Clock, travel: Int32)
    requires 1 <= c.hours <= 12 && 0 <= c.minutes <= 59
    requires 0 <= travel <= MaxInt32 - (c.hours * 60 + c.minutes)
    ensures var total: int := c.hours * 60 + c.minutes + travel;
            var r := TwelveHour(total, c.period);
            ClockArrival(c, travel) == Render(r)
            && r.period == (if total / 60 >= 12 then "pm" else "am")
  {
    var total: int := c.hours * 60 + c.minutes + travel;
    ClockArrivalSum(c, travel, total);
    ReadingPeriod(total, c.period);
  }

  /** A departure that parses into an hour from 1 to 12, followed by a
      travel time that does not overflow, arrives at the reading of its
      minutes since 0:00 plus the travel time, with the period of the arrival
      hour. */
  lemma ParsedDaytimeArrival(t: string, c: Clock, travel: Int32)
    requires ParseTime(t) == Ok(c)
    requires 1 <= c.hours <= 12 && 0 <= c.minutes <= 59
    requires 0 <= travel <= MaxInt32 - (c.hours * 60 + c.minutes)
    ensures var total: int := c.hours * 60 + c.minutes + travel;
            var r := TwelveHour(total, c.period);
            ArrivalFromDeparture(t, travel) == Ok(Render(r))
            && r.period == (if total / 60 >= 12 then "pm" else "am")
  {
    ParsedArrival(t, c, travel);
    DaytimeArrival(c, travel);
  }

  /** The same for every listed station: with `c` its parsed departure, its
      arrival is the reading of its departure plus the travel time, with the
      period of the arrival hour. */
  lemma ListedArrival(station: string, c: Clock, travel: Int32)
    requires station in DepartureTimes
    requires ParseTime(DepartureTime(station)) == Ok(c)
    requires 0 <= travel <= MaxInt32 - (c.hours * 60 + c.minutes)
    ensures var total: int := c.hours * 60 + c.minutes + travel;
            var r := TwelveHour(total, c.period);
            ArrivalTime(station, travel) == Ok(Render(r))
            && r.period == (if total / 60 >= 12 then "pm" else "am")
  {
    ListedDepartureParses(station);
    ParsedDaytimeArrival(DepartureTime(station), c, travel);
  }

  /** A negative travel time can bring the arrival into hour 0, which keeps
      the departure's suffix: 2:00pm minus 100 minutes prints "12:20pm". */
  lemma NegativeTravelKeepsSuffix()
    ensures ClockArrival(Clock(2, 0, "pm"), -100) == "12:20pm"
  {
    assert ArrivalMinutes(2, 0, -100) == 20;
    assert NatToString(12) == "12";
    assert NatToString(20) == "20";
  }

  /** Twenty-four hours and no minutes print as "0:00pm". */
  lemma MidnightPrintsZero(departurePeriod: string)
    ensures Render(TwelveHour(24 * 60, departurePeriod)) == "0:00pm"
  {
    assert NatToString(0) == "0";
  }
}
