# Train tickets: route calendar and booking routers in Dafny

This project models the core of a small train-ticket system:

- **The route calendar** (`RouteCalendar.jsx`). It shows one month as a
  Monday-first grid of 6 weeks × 7 days. The month is the one of the selected
  date, or of the first available date when nothing is selected. Every day is
  drawn. Only days listed among the available `YYYY-MM-DD` dates react to a
  click, and the selected day is highlighted.
- **The five FastAPI routers** of the backend: stations, trains, routes, trips
  and tickets. They create, list, read and delete rows of a SQLite database.
  They also answer the calendar's question of which days have trips between
  two stations.

Modules:

- `Wrappers`: `Option`, `Result` and the HTTP error a handler raises.
- `Gregorian`: the proleptic Gregorian calendar.
  - Day numbers count from 0001-01-01.
  - Weekdays are numbered as JavaScript's `getDay` numbers them (0 = Sunday).
  - Also: month lengths and the next day.
- `IsoDate`: writing and reading `YYYY-MM-DD`, as in the full-date form of
  section 5.6 of RFC 3339.
- `SortedStrings`: Python's string order, and `sorted(set(...))`.
- `RouteCalendar`: the component, as a specification function `Calendar` and
  as the loops that build the grid (`BuildWeeks`, `RenderCalendar`).
- `Models`: the rows of the five tables, Python's ordering of naive datetimes,
  `.filter(...).first()` and `.filter(...).all()`, SQLite's choice of a new
  key, and the `Database` class.
  - The class holds the five tables as sequences in key order.
  - Its `Valid()` states what the routers keep true of them: unique station
    codes, unique train numbers, trips that arrive after they depart, and at
    most one paid ticket per seat of a trip.
- `StationsRouter`, `TrainsRouter`, `RoutesRouter`, `TripsRouter`,
  `TicketsRouter`: one module per router.
  - Every handler that writes is a module-level method that takes the
    `Database` as its `db` argument, as each FastAPI handler takes its session.
  - Each one states its new state in full, its error cases with their status
    and detail, and that `Valid()` is kept.

Two behaviours of the code are worth stating up front:

- **Deleting a station that a route still names fails with a 500.**
  `delete_station` (`stations.py:61-72`) deletes the row without looking at
  the routes. SQLAlchemy's default one-to-many handling then sets the routes'
  NOT NULL station keys to NULL at flush, the database refuses, and the
  unhandled IntegrityError becomes a 500 with nothing committed.
- **An unreadable reference date draws a blank grid.** `new Date(ref +
  "T00:00:00")` (`RouteCalendar.jsx:20`) yields an Invalid Date, every
  comparison with its day numbers fails, and 42 blank cells are drawn. The
  "no dates" notice appears only when there is no reference date at all.

For reference years 0..99, `Calendar`, `BuildWeeks` and `RenderCalendar`
describe the grid of the reference month itself. That is the evidently
intended grid, not the one the component draws; see "## Findings".

## Model

| member | source | states |
|---|---|---|
| Gregorian.DaysInMonth | train-tickets-frontend/src/components/RouteCalendar.jsx:42-44 | the length of every month lies between 28 and 31 days |
| Gregorian.Weekday | train-tickets-frontend/src/components/RouteCalendar.jsx:35-36 | `getDay()` of a date is a weekday number 0..6, with 0 = Sunday |
| Gregorian.DaysBeforeNextYear | train-tickets-frontend/src/components/RouteCalendar.jsx:42-44 | the day count before year y+1 is the count before y plus the length of y (365, or 366 in a leap year) |
| Gregorian.DaysBeforeYearMonotone | train-tickets-frontend/src/components/RouteCalendar.jsx:42-44 | every earlier year ends before a later year begins |
| Gregorian.DaysBeforeMonthMonotone | train-tickets-frontend/src/components/RouteCalendar.jsx:42-44 | inside a year, every earlier month ends before a later month begins |
| Gregorian.MonthTableAgrees | train-tickets-frontend/src/components/RouteCalendar.jsx:42-44 | the cumulative month table adds exactly the month lengths, and the twelve months fill the year |
| Gregorian.NextDayNumber | train-tickets-backend/app/routers/trips.py:71-72 | adding one day (`timedelta(days=1)`) gives a valid date whose day number is one more |
| Gregorian.WeekdayOfNextDay | train-tickets-frontend/src/components/RouteCalendar.jsx:35-36 | the weekday of the next day is the next weekday, Saturday wrapping to Sunday |
| Gregorian.LastDayPrecedesNextMonth | train-tickets-frontend/src/components/RouteCalendar.jsx:42-44 | `new Date(nextMonth - 1)` is the last day of the month: the 1st of the next month comes directly after day `daysInMonth` |
| Gregorian.NextDayIsSuccessor | train-tickets-backend/app/routers/trips.py:71-74 | the next day is later than the day, and nothing falls strictly between them |
| Gregorian.DayNumberMonotone | train-tickets-backend/app/routers/trips.py:73-74 | comparing dates is the same as comparing their day numbers |
| Gregorian.EpochIsThursday | train-tickets-frontend/src/components/RouteCalendar.jsx:36 | 1970-01-01 is a Thursday (`getDay()` = 4), as in ECMAScript |
| IsoDate.FormatDate | train-tickets-frontend/src/components/RouteCalendar.jsx:57 | the text `toISOString().substring(0, 10)` is ten characters with dashes at positions 4 and 7 |
| IsoDate.ParseFullDate | train-tickets-frontend/src/components/RouteCalendar.jsx:20 | a date-only string that is accepted names a real calendar date |
| IsoDate.FourDigitsRoundTrip | train-tickets-backend/app/routers/trips.py:105 | a four-digit year reads back as the year it was written from |
| IsoDate.FourDigitValueRoundTrip | train-tickets-backend/app/routers/trips.py:105 | four digits read as a year are written back as the same digits |
| IsoDate.ParseFormat | train-tickets-backend/app/routers/trips.py:105 | reading a written `YYYY-MM-DD` gives back the date |
| IsoDate.FormatParse | train-tickets-frontend/src/components/RouteCalendar.jsx:124-125 | a string accepted as a date is written back unchanged, so comparing texts is comparing dates |
| IsoDate.FormatDateInjective | train-tickets-frontend/src/components/RouteCalendar.jsx:125 | two different dates never have the same text |
| SortedStrings.StrLessIrreflexive | train-tickets-backend/app/routers/trips.py:104-106 | no string sorts before itself |
| SortedStrings.StrLessTransitive | train-tickets-backend/app/routers/trips.py:104-106 | Python's string order is transitive |
| SortedStrings.StrLessTotal | train-tickets-backend/app/routers/trips.py:104-106 | any two distinct strings are ordered one way or the other |
| SortedStrings.InsertSorted | train-tickets-backend/app/routers/trips.py:104-106 | adding a string to a strictly sorted list keeps it strictly sorted, and the elements are the old ones plus that string |
| SortedStrings.SortedDistinct | train-tickets-backend/app/routers/trips.py:104-106 | `sorted({...})` is strictly sorted and holds exactly the list's elements |
| SortedStrings.StrictlySortedUnique | train-tickets-backend/app/routers/trips.py:104-106 | two strictly sorted lists with the same elements are equal, so the answer is determined by the set of dates alone |
| RouteCalendar.ReferenceDate | train-tickets-frontend/src/components/RouteCalendar.jsx:17-19 | there is no reference date only when nothing is selected and there is no non-empty first available date; otherwise it is the selection, or failing that the first available date |
| RouteCalendar.ParseReference | train-tickets-frontend/src/components/RouteCalendar.jsx:17-32 | an accepted reference date gives a year 0..9999 and a month 1..12 |
| RouteCalendar.ReferenceOfFullDate | train-tickets-frontend/src/components/RouteCalendar.jsx:20-32 | a full `YYYY-MM-DD` reference date puts the grid in that date's own year and month |
| RouteCalendar.StartOffset | train-tickets-frontend/src/components/RouteCalendar.jsx:36-39 | the Monday-first offset is 0..6; it is 0 exactly when the 1st is a Monday; it is one less than the weekday, modulo 7 |
| RouteCalendar.Calendar | train-tickets-frontend/src/components/RouteCalendar.jsx:17-29 | the "no dates" notice appears exactly when there is no reference date; otherwise the grid has 6 rows of 7 cells; for reference years 0..99 this is the intended grid (see Findings) |
| RouteCalendar.BuildWeeks | train-tickets-frontend/src/components/RouteCalendar.jsx:47-63 | the loops fill 6 weeks of 7 slots; slot (w, d) is day `7w + d - startOffset + 1` with its date text when that is a day of the month, and blank otherwise; for reference years 0..99 the loops run over the reference month, not over 1900 + year |
| RouteCalendar.RenderCalendar | train-tickets-frontend/src/components/RouteCalendar.jsx:9-63 | the component's output is `Calendar` of its inputs; the notice appears exactly when nothing is selected and there is no first available date; for reference years 0..99 it is the intended grid (see Findings) |
| RouteCalendar.DayColumnIsWeekday | train-tickets-frontend/src/components/RouteCalendar.jsx:35-39 | the cell of every day stands in the column of its weekday, Monday first |
| RouteCalendar.EveryDayOnce | train-tickets-frontend/src/components/RouteCalendar.jsx:47-63 | each day of the month appears in exactly one of the 42 cells |
| RouteCalendar.DaysContiguous | train-tickets-frontend/src/components/RouteCalendar.jsx:47-63 | day cells are a contiguous run from `startOffset` of length `daysInMonth`, counting up by one per cell; all other cells are blank |
| RouteCalendar.SlotTextIsItsDate | train-tickets-frontend/src/components/RouteCalendar.jsx:55-57 | for any offset, the text of a day slot reads back as that day of the month |
| RouteCalendar.DayTextIsItsDate | train-tickets-frontend/src/components/RouteCalendar.jsx:56-57 | the text of the cell of day n reads back as day n of the reference month |
| RouteCalendar.FlagsAgreeWithInputs | train-tickets-frontend/src/components/RouteCalendar.jsx:113-125 | a cell is a button exactly when it holds a day; it is available exactly when its date is among the available dates, and selected exactly when it equals the selected date |
| RouteCalendar.AtMostOneSelected | train-tickets-frontend/src/components/RouteCalendar.jsx:125 | no two cells are selected |
| RouteCalendar.SelectedOnlyWithinMonth | train-tickets-frontend/src/components/RouteCalendar.jsx:125 | a cell is selected only when the selected date is a day of the shown month, and that cell is the cell of that day |
| RouteCalendar.ClickOnlyWhenAvailable | train-tickets-frontend/src/components/RouteCalendar.jsx:153-156 | a click calls `onSelectDate` exactly on an available day, and then with that day's date, which is one of the available dates |
| RouteCalendar.AvailableDayIsClickable | train-tickets-frontend/src/components/RouteCalendar.jsx:113-156 | every available date in the shown month has a cell, and clicking it passes exactly that date |
| RouteCalendar.GridOfReferenceMonth | train-tickets-frontend/src/components/RouteCalendar.jsx:31-63 | row w, column d of the grid is the cell at position 7w + d of the reference month |
| RouteCalendar.SameGrid | train-tickets-frontend/src/components/RouteCalendar.jsx:47-63 | a 6 × 7 grid whose every cell is the reference month's cell at that position is the grid `Calendar` describes |
| RouteCalendar.March2024Layout | train-tickets-frontend/src/components/RouteCalendar.jsx:35-44 | March 2024 starts on a Friday, after 4 blank cells, and has 31 days |
| RouteCalendar.March2024 | train-tickets-frontend/src/components/RouteCalendar.jsx:17-125 | with 1 and 15 March 2024 available and 15 March selected: four blanks, then 1 March available and not selected, then 15 March available and selected at row 2, column 4; no other cell is available |
| RouteCalendar.ConstructorYear | train-tickets-frontend/src/components/RouteCalendar.jsx:35-56 | `new Date(year, month, day)` keeps a year 0..9999 within 0..9999; the mapping of years 0..99 to 1900..1999 that it applies is stated by `RouteCalendar.AsWrittenShowsNineteenHundreds` and `RouteCalendar.AsWrittenAgreesFromYear100` |
| RouteCalendar.AsWrittenAgreesFromYear100 | train-tickets-frontend/src/components/RouteCalendar.jsx:35-56 | from year 100 on, the grid the component builds is the grid of the reference month |
| RouteCalendar.AsWrittenShowsNineteenHundreds | train-tickets-frontend/src/components/RouteCalendar.jsx:35-57 | for a reference year 0..99 every day cell the component draws carries the text of a date in 1900 + year |
| RouteCalendar.February24Text | train-tickets-frontend/src/components/RouteCalendar.jsx:20 | the text 0024-02-10 reads as 10 February of year 24 |
| RouteCalendar.February24Layout | train-tickets-frontend/src/components/RouteCalendar.jsx:35-44 | February 0024 starts on a Thursday and February 1924 on a Friday; both have 29 days |
| RouteCalendar.YearTwentyFourShowsFebruary1924 | train-tickets-frontend/src/components/RouteCalendar.jsx:17-63 | for the reference 0024-02-10 the intended grid has day 1 "0024-02-01" in the fourth cell; the component leaves that cell blank and puts day 1 "1924-02-01" in the fifth |
| Models.NotAtOrBefore | train-tickets-backend/app/routers/trips.py:28 | `not (arrival <= departure)` is `departure < arrival`: datetimes are totally ordered |
| Models.First | train-tickets-backend/app/routers/tickets.py:22 | `.filter(p).first()` returns a row exactly when some row satisfies p, and then the first such row |
| Models.Filter | train-tickets-backend/app/routers/trips.py:58-76 | `.filter(p).all()` keeps exactly the rows satisfying p, never more rows than the table |
| Models.FilterKeepsIdsAscending | train-tickets-backend/app/routers/trips.py:58-76 | a filtered table keeps its keys ascending; with membership this fixes the result as the passing rows, each once, in table order |
| Models.FilterTwice | train-tickets-backend/app/routers/trips.py:61-74 | applying two filters in turn is filtering by both conditions |
| Models.FilterSame | train-tickets-backend/app/routers/trips.py:61-74 | filters with conditions that agree on every row give the same rows |
| Models.FilterAll | train-tickets-backend/app/routers/trips.py:58 | a filter that every row passes returns the whole table |
| Models.NextId | train-tickets-backend/app/models.py:7-76 | a new row's key is greater than every key present, and 1 in an empty table |
| Models.AppendKeepsIdsAscending | train-tickets-backend/app/models.py:7-76 | appending a row with the next key keeps the keys in ascending order |
| Models.Database.constructor | train-tickets-backend/app/models.py:7-76 | a new database has five empty tables and satisfies the invariant |
| StationsRouter.CreateStation | train-tickets-backend/app/routers/stations.py:16-38 | 400 "Station with this code already exists" exactly when a station has the code, with no change; otherwise the station is appended with the next key; nothing else changes; the invariant is kept |
| StationsRouter.ListStations | train-tickets-backend/app/routers/stations.py:41-47 | the answer holds exactly the stored stations, in ascending key order |
| StationsRouter.GetStation | train-tickets-backend/app/routers/stations.py:50-58 | the station with the key when there is one; otherwise 404 "Station not found" |
| StationsRouter.IndexOfStation | train-tickets-backend/app/routers/stations.py:67 | a key that is present is found at an index holding that key |
| StationsRouter.DeleteStation | train-tickets-backend/app/routers/stations.py:61-72 | 404 for an unknown key; 500 "Internal Server Error" with no change when a known station is named by a route; otherwise exactly that row is removed and "Station deleted" is returned; nothing else changes; the invariant is kept |
| StationsRouter.RemovalKeepsStationInvariants | train-tickets-backend/app/routers/stations.py:70-71 | removing a row keeps the keys ascending and the codes distinct |
| StationsRouter.DeleteRemovesOnlyThatStation | train-tickets-backend/app/routers/stations.py:70-71 | after the removal the stations are exactly the previous ones minus the one with that key |
| TrainsRouter.CreateTrain | train-tickets-backend/app/routers/trains.py:17-38 | 400 "Train with this number already exists" exactly when a train has the number, with no change; otherwise the train is appended with the next key and its optional name; nothing else changes |
| TrainsRouter.ListTrains | train-tickets-backend/app/routers/trains.py:41-47 | the answer holds exactly the stored trains, in ascending key order, with distinct numbers |
| RoutesRouter.CreateRoute | train-tickets-backend/app/routers/routes.py:16-40 | 400 "Start or end station does not exist" exactly when either station is missing, with no change; otherwise the route is appended with the next key; nothing else changes |
| RoutesRouter.ListRoutes | train-tickets-backend/app/routers/routes.py:43-49 | the answer holds exactly the stored routes, in ascending key order |
| TripsRouter.CreateTrip | train-tickets-backend/app/routers/trips.py:17-41 | 400 "Route or train does not exist" when either is missing; otherwise 400 "Arrival time must be after departure time" when arrival <= departure; it succeeds exactly when both exist and departure < arrival, appending the trip with the next key; nothing else changes |
| TripsRouter.AppendKeepsTripsTimed | train-tickets-backend/app/routers/trips.py:28-41 | appending a trip that arrives after it departs keeps every stored trip timed |
| TripsRouter.MatchingTrips | train-tickets-backend/app/routers/trips.py:58-76 | the listed trips are exactly the stored trips meeting every given condition, and they keep arrival after departure, and their keys ascend when the table's do |
| TripsRouter.ListTrips | train-tickets-backend/app/routers/trips.py:44-77 | a 500 exactly when travel_date is 9999-12-31 (the day window overflows); otherwise the trips matching every given filter, in ascending key order |
| TripsRouter.NoFiltersListAll | train-tickets-backend/app/routers/trips.py:58-76 | with no parameters every trip is listed |
| TripsRouter.StationFilterFollowsRoute | train-tickets-backend/app/routers/trips.py:61-67 | a trip listed for a station filter joins a stored route that starts and ends at the given stations |
| TripsRouter.RouteMeansListed | train-tickets-backend/app/routers/trips.py:61-67 | conversely, a stored trip whose route starts and ends at the given stations is listed for them |
| TripsRouter.DayWindowIsDepartureDay | train-tickets-backend/app/routers/trips.py:70-74 | a trip is in the window of travel_date exactly when its departure date is travel_date, whatever its time of day |
| TripsRouter.DepartureDates | train-tickets-backend/app/routers/trips.py:105 | one text per trip, and each reads back (`ParseFullDate`) as that trip's departure date |
| TripsRouter.DepartureDateRuns | train-tickets-backend/app/routers/trips.py:90-106 | the departure date of each trip between the two stations is a date with trips |
| TripsRouter.RunningDayIsDepartureDate | train-tickets-backend/app/routers/trips.py:90-106 | every date with trips is the departure date of such a trip |
| TripsRouter.GetAvailableDates | train-tickets-backend/app/routers/trips.py:79-108 | the dates are strictly sorted, each is a `YYYY-MM-DD` date, and a date is listed exactly when some trip between the two stations departs on it |
| TripsRouter.NoTripsNoDates | train-tickets-backend/app/routers/trips.py:101-102 | the list is empty exactly when no stored trip is on a route that starts at the start station and ends at the end station (an if-and-only-if) |
| TicketsRouter.CreateTicket | train-tickets-backend/app/routers/tickets.py:14-49 | 400 "Trip does not exist" when the trip is missing; otherwise 400 "Seat already booked for this trip" when a paid ticket holds the seat; it succeeds exactly when neither applies, appending a paid ticket with the next key and the creation time; nothing else changes; at most one paid ticket per seat |
| TicketsRouter.GetTicket | train-tickets-backend/app/routers/tickets.py:52-60 | the ticket with the key when there is one; otherwise 404 "Ticket not found" |
| TicketsRouter.UnpaidTicketDoesNotBlock | train-tickets-backend/app/routers/tickets.py:27-35 | a ticket whose status is not "paid" never makes a seat count as booked |
| TicketsRouter.HolderIsUnique | train-tickets-backend/app/routers/tickets.py:27-37 | a reformulation, by positions, of the `OnePaidTicketPerSeat` conjunct of `Valid()`: two paid tickets for the same seat of the same trip are the same ticket |

## Left out

- Time zones. The component builds its dates in local time and writes them with `toISOString`, which is in UTC. East of Greenwich this shows each cell the date of the day before. The model takes the time-zone offset to be zero. `created_at` is a parameter of `CreateTicket`, standing for the clock reading.
- Rendering and locale. Styles, the month title, the weekday header and `React.useMemo` caching are not modelled. Only the data the grid is built from is.
- Non-ISO reference strings. Engine-specific date formats are read as Invalid Date. The lenient day ranges some engines allow (such as 2024-02-30) are rejected by `ParseReference`. Expanded years (`+002024`) and negative years are not accepted.
- RouteCalendar.ParseReference: its own contract is only that an accepted string names a valid month. For full `YYYY-MM-DD` dates, `RouteCalendar.ReferenceOfFullDate` states that the month is the date's own. The `YYYY` and `YYYY-MM` forms are stated by its body alone.
- Prices. `base_price` and `price` are Float columns that the routers only copy, so they are opaque integers here.
- Request validation. pydantic's parsing of request bodies and of datetimes happens before a handler runs, so handlers receive typed values. `CreateTrip` requires datetimes that Python can represent. Timezone-aware datetimes are not modelled.
- Concurrency. Two `create_ticket` requests for the same seat can both pass the check before either commits. The model runs one request at a time, and `OnePaidTicketPerSeat` holds under that assumption.
- Result order. A query without ORDER BY comes back in SQLite's rowid order, which is how the tables are kept here.
- Key width. SQLite keys and query parameters are 64-bit, and sqlite3 raises OverflowError for an integer above 2^63 - 1, which is an unhandled 500. The model's keys are unbounded integers. So for such a key, StationsRouter.GetStation, StationsRouter.DeleteStation and TicketsRouter.GetTicket answer 404; RoutesRouter.CreateRoute, TripsRouter.CreateTrip and TicketsRouter.CreateTicket answer 400; and TripsRouter.ListTrips and TripsRouter.GetAvailableDates return an empty list. The source gives a 500 in all of these cases.
- Foreign keys. Trips and tickets are not checked against the rows they name beyond what the routers check.
- The rest of the backend: `main.py`, `database.py`, `seed_data.py`, the analytics router and the frontend pages. These are not part of this model.

## Findings

| source | as written | input that shows it | evidently intended | confidence | as-written member | corrected member |
|---|---|---|---|---|---|---|
| train-tickets-frontend/src/components/RouteCalendar.jsx:35-56 | the grid's dates are built with `new Date(year, month, day)` from the reference year, and that constructor reads years 0..99 as 1900..1999 | reference date "0024-02-10" | the grid of February of year 24, starting in the fourth cell, each cell labelled with its own date | not executed | RouteCalendar.YearTwentyFourShowsFebruary1924 | RouteCalendar.DayTextIsItsDate |
