# Train station times and stations, in Dafny

This project models the two pieces of the train-station program that hold
working logic: how the station display computes departure and arrival times,
and the `Station` record.

- **Departure and arrival times** (`StationGUI.getDepartureTime` and
  `getArrivalTime`), in `schedule.dfy`, module `Schedule`.
  - A fixed table gives twelve stations a departure time such as `9:35am`.
    Any other name gets `"N/A"`.
  - An arrival time is computed in three steps. The departure time is split
    at `:` into hours, two minute digits and a suffix. The travel time, in
    whole minutes, is added. The sum is printed again on a 12-hour clock.
  - The model reproduces the display's own rules, including their quirks:
    - the departure's `am`/`pm` suffix plays no part in the sum;
    - hour 0 prints as `12` and keeps the departure's suffix;
    - hour 12 prints as `12pm`;
    - hours above 12 are reduced modulo 12, so hour 24 prints as `0` with
      `pm`.
  - Java's `String.split(":")` is `Schedule.Split`: the string itself when
    it holds no colon, otherwise its pieces with trailing empty pieces
    removed.
  - `Integer.parseInt` and `Integer.toString` are in module `JavaInt`
    (`java_int.dfy`), for ASCII digits only (see "## Left out"). The same
    module holds two's-complement overflow of `int` and Java's truncating
    `/` and `%`.
  - Every failure of the parse is an `Err` value, named after the exception
    Java throws.
- **The `Station` record** (`Station.java`), in `station.dfy`, module
  `Stations`. It is a class with two mutable fields: the city name and the
  distance. It has getters, setters, field-wise `equals` and a
  `(name, distance)` text form. The text form is proved to read back
  unambiguously, so two stations are equal exactly when they print the same.

Two facts about the code shape the model.
- Route finding (shortest routes, a sorted stack, travel times, route
  tracing) exists only as empty or throwing stubs, in
  `src/main/TrainStationManager.java` lines 54-103. It is not modelled.
- For a station missing from the table, `getArrivalTime` throws a
  `NumberFormatException` at `Integer.parseInt("N/A")`. This happens before
  `timeParts[1]` is read. The model's result is `Err(NumberFormat)`.

## Model

| member | source | states |
|---|---|---|
| `Schedule.DepartureTime` | src/main/StationGUI.java:117-142 | the result has the shape of a clock time (hour 1-12, colon, minutes 00-59, am/pm) exactly when the station is in the table; any other name gives "N/A" |
| `Schedule.DepartureTimeTable` | src/main/StationGUI.java:121-132 | each of the twelve stations is given its listed departure time |
| `Schedule.Split` | src/main/StationGUI.java:166 | a string without a colon splits into itself alone; otherwise the result is the pieces between colons, in order, up to the last non-empty one, and every piece dropped after it is empty; no piece holds a colon |
| `Schedule.ParseTime` | src/main/StationGUI.java:166-169 | no ensures of its own; `ParseParts`, `ParseShaped`, `NotAvailableFails` and `RenderParsesBack` state what it returns |
| `Schedule.PiecesAtFirstColon` | src/main/StationGUI.java:166 | splitting at colons cuts a colon-free prefix off as the first piece and splits the rest in the same way |
| `Schedule.ParseParts` | src/main/StationGUI.java:166-169 | hour digits, a colon, two minute digits and a colon-free suffix parse into exactly that hour, those minutes and that suffix |
| `Schedule.ParseShaped` | src/main/StationGUI.java:166-169 | every well-shaped time parses, into hours 1-12, minutes 0-59 and its am/pm suffix |
| `Schedule.ListedDepartureParses` | src/main/StationGUI.java:121-132 | the departure time of every listed station parses, with hours 1-12, minutes 0-59 and suffix am or pm |
| `Schedule.NotAvailableFails` | src/main/StationGUI.java:166-167 | "N/A" does not parse: parsing its hours throws a number-format failure |
| `Schedule.ArrivalDefinedIffListed` | src/main/StationGUI.java:162-169 | an arrival time exists exactly for the listed stations; every other name fails with a number-format failure |
| `Schedule.ArrivalMinutes` | src/main/StationGUI.java:172-175 | arrival minutes since 0:00 equal hours * 60 + minutes + travel whenever no step overflows, and are always congruent to that sum modulo 2^32 |
| `JavaInt.Wrap32` | src/main/StationGUI.java:172-175 | a result already in `int` range is unchanged, and every result differs from the exact value by a multiple of 2^32 |
| `JavaInt.Div` | src/main/StationGUI.java:178 | no ensures of its own; `JavaInt.Rem` ties it to the remainder, and `ReadingPeriod`, `ReadingHour` and `ReadingDenotesHour` state the hour it yields |
| `JavaInt.Rem` | src/main/StationGUI.java:179-185 | the dividend is quotient * divisor + remainder, with the remainder in 0..b-1 for a non-negative dividend and in -(b-1)..0 for a negative one |
| `Schedule.TwelveHour` | src/main/StationGUI.java:178-191 | no ensures of its own; `ReadingMinutes`, `ReadingPeriod`, `ReadingHour` and `ReadingDenotesHour` state its hour, minutes and period |
| `Schedule.Padded` | src/main/StationGUI.java:194 | no ensures of its own; `PaddedTwoDigits` states that minutes 0-59 print as two digits denoting them |
| `Schedule.Render` | src/main/StationGUI.java:194 | no ensures of its own; `RenderedFields` states its fields and `RenderParsesBack` that it parses back |
| `JavaInt.ToString` | src/main/StationGUI.java:194 | no ensures of its own; `ParseIntOfToString` states that `Integer.parseInt` reads it back and `ToStringHasNoComma` that it holds no comma |
| `Schedule.ClockArrival` | src/main/StationGUI.java:172-194 | no ensures of its own; `ClockArrivalSum`, `DaytimeArrival` and `DepartureSuffixIgnored` state the printed arrival |
| `Schedule.ArrivalFromDeparture` | src/main/StationGUI.java:163-194 | no ensures of its own; `ParsedDaytimeArrival` states the arrival for a departure that parses |
| `Schedule.ArrivalTime` | src/main/StationGUI.java:162-195 | no ensures of its own; `ArrivalDefinedIffListed` and `ListedArrival` state when it succeeds and what it prints |
| `Schedule.ClockArrivalSum` | src/main/StationGUI.java:172-194 | whenever no step of hours * 60 + minutes + travel overflows `int` (negative values included), the printed arrival is the 12-hour reading of that exact sum |
| `Schedule.DepartureSuffixIgnored` | src/main/StationGUI.java:172-191 | when no step overflows, two departures with the same hour and minutes but different suffixes give the same arrival unless its total lies strictly between -60 and 60 (hour 0): the suffix does not enter the sum |
| `Schedule.DaytimeArrival` | src/main/StationGUI.java:172-194 | for a departure hour 1-12, minutes 0-59 and a travel time from 0 up to the largest that does not overflow, the arrival is the reading of hours * 60 + minutes + travel, and its period is pm from hour 12 on and am before: the departure's own suffix never shows |
| `Schedule.ParsedDaytimeArrival` | src/main/StationGUI.java:163-194 | the same, for the same travel times, starting from the departure string that parses into such a clock |
| `Schedule.ListedArrival` | src/main/StationGUI.java:162-195 | for a listed station whose departure parses into a clock and a travel time from 0 up to the largest that does not overflow, the arrival is the reading of that clock's minutes since 0:00 plus travel, with period pm from hour 12 on and am before |
| `Schedule.ReadingMinutes` | src/main/StationGUI.java:178-179 | the minutes shown are the total modulo 60, between 0 and 59 |
| `Schedule.ReadingPeriod` | src/main/StationGUI.java:180-191 | the period is pm when the arrival hour is 12 or more and am in hours 1-11; the departure's suffix is kept only in hour 0 |
| `Schedule.ReadingHour` | src/main/StationGUI.java:182-191 | hour 0 shows as 12, 12 stays 12, hours above 12 show modulo 12, 1-11 are unchanged; the shown hour is 0 exactly for the multiples of 12 from 24 on |
| `Schedule.ReadingDenotesHour` | src/main/StationGUI.java:178-191 | from 1:00 up to midnight the reading names the right hour of the day; from hour 24 on it stays pm and keeps only the hour modulo 12 |
| `Schedule.PaddedTwoDigits` | src/main/StationGUI.java:194 | minutes 0-59 are printed as exactly two digits denoting them, with a leading 0 below ten |
| `Schedule.RenderedFields` | src/main/StationGUI.java:194 | the printed arrival is the hour's digits, a colon, the minutes (the total modulo 60) as two digits, then the period |
| `Schedule.RenderParsesBack` | src/main/StationGUI.java:166-194 | parsing a printed arrival gives back exactly the printed hour, minutes and period |
| `Schedule.NegativeTravelKeepsSuffix` | src/main/StationGUI.java:172-194 | a 2:00pm departure with a travel time of -100 minutes arrives in hour 0 and prints "12:20pm", keeping the departure's suffix |
| `Schedule.MidnightPrintsZero` | src/main/StationGUI.java:182-194 | 24 hours and no minutes print as "0:00pm" |
| `JavaInt.ParseInt` | src/main/StationGUI.java:167-168 | `Integer.parseInt` rejects the empty string and a string starting with anything but a digit or sign, and reads a string of digits as the number they denote |
| `JavaInt.ParseIntOfToString` | src/main/StationGUI.java:194 | an `int` printed into the arrival string reads back as the same `int` with `Integer.parseInt` |
| `Stations.Station.constructor` | src/main/Station.java:19-22 | a new station's name and distance are exactly the given ones, as its getters return them |
| `Stations.Station.GetCityName` | src/main/Station.java:29-31 | no ensures of its own; the constructor and setter contracts state what it returns |
| `Stations.Station.SetCityName` | src/main/Station.java:38-40 | the name becomes the given one and the distance is unchanged |
| `Stations.Station.GetDistance` | src/main/Station.java:47-49 | no ensures of its own; the constructor and setter contracts state what it returns |
| `Stations.Station.SetDistance` | src/main/Station.java:56-58 | the distance becomes the given one and the name is unchanged |
| `Stations.Station.Equals` | src/main/Station.java:69-77 | no ensures of its own; `EqualsIsEquivalence`, `DistanceDistinguishes` and `EqualsIffSameText` state its behaviour |
| `Stations.StationText` | src/main/Station.java:86-88 | no ensures of its own; `StationTextRoundTrip` and `StationTextInjective` state that it reads back to the name and distance |
| `Stations.Station.ToString` | src/main/Station.java:86-88 | no ensures of its own; `EqualsIffSameText` states that equal texts mean equal stations |
| `Stations.EqualsIsEquivalence` | src/main/Station.java:69-77 | `equals` is reflexive, symmetric and transitive, and never holds for null |
| `Stations.DistanceDistinguishes` | src/main/Station.java:77 | the same city name at a different distance is not equal, in either direction |
| `Stations.LastCommaEndsName` | src/main/Station.java:86-88 | in a station's text, the last comma is the one right after the name, since a printed distance holds no comma |
| `Stations.StationTextRoundTrip` | src/main/Station.java:86-88 | the text "(" + name + ", " + distance + ")" reads back to exactly that name and distance, whatever commas the name contains |
| `Stations.StationTextInjective` | src/main/Station.java:86-88 | two stations with the same text have the same name and distance |
| `Stations.EqualsIffSameText` | src/main/Station.java:69-88 | two stations are equal exactly when their texts are equal |

## Left out

- `src/main/TrainStationManager.java` is not part of this model. Its constructor reads a file, and every other method is an empty stub or throws.
- `StationGUI.initializeGUI` and `main` are Swing user-interface code (windows, combo boxes, listeners).
- The `double` travel time is taken after its `(int)` cast. The cast's own behaviour (truncation, NaN, saturation) is not modelled.
- The departure table's hash table (`HashTableSC` with `SimpleHashFunction`) is library code; the table is a Dafny `map`.
- `Integer.parseInt` also accepts non-ASCII Unicode digits; the model accepts only `0`-`9`.
- `Station.equals`: the reference-identity shortcut and the `getClass()` test are not modelled separately; the identity case gives the same answer as the field comparison. `hashCode` is not overridden and not modelled. Names are never null in the model.
- The getters `getCityName` and `getDistance` have no contract of their own; the constructor and setter contracts state what they return.
- Schedule.DaytimeArrival: stated only for travel times from 0 to 2^31 - 1 minus the departure in minutes since 0:00. With a negative travel time the arrival can fall in hour 0 and then shows the departure's suffix (`NegativeTravelKeepsSuffix`: 2:00pm minus 100 minutes prints "12:20pm"), so "the suffix never shows" does not hold there; `ClockArrivalSum` covers those travel times.
- Schedule.ParsedDaytimeArrival: stated only for the same travel times as `DaytimeArrival`, for the same reason.
- Schedule.ListedArrival: stated only for travel times from 0 to 2^31 - 1 minus the departure in minutes since 0:00. A negative travel time can bring the arrival into hour 0, where the departure's suffix shows; overflow is modelled by `ArrivalMinutes` and `ClockArrivalSum` instead.
- Schedule.ReadingMinutes, Schedule.ReadingPeriod, Schedule.ReadingHour, Schedule.RenderedFields and Schedule.RenderParsesBack: stated only for non-negative totals. A negative total arises from overflow or from a negative travel time; the model then computes what Java prints, with truncating `/` and `%`.
