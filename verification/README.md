# oasth static-data core, modelled in Dafny

The Kotlin library oasth downloads the static network of the Thessaloniki bus
operator (stops, routes, lines, master lines, calendars and schedules). It
receives this data as comma-separated tuple lists from a fixed set of API
endpoints, then links it into one immutable snapshot. This project models the
pure part of that work:

- reading the tuple-list and flat-JSON response formats;
- the endpoint URLs;
- the four processors that build and link the entities;
- the route-direction enum and the bus-line route filters;
- the calendar weekday test;
- the URL of a trip-time estimation request;
- the sequential chaining of the processors that `fetchData` performs.

The HTTP request is a parameter `fetch` from URL to body.

Modules, one per file:

| file | module | models |
|---|---|---|
| results.dfy | Results | `Option`, `Result`, and the exceptions the source throws, as an `Error` datatype |
| text.dfy | Text | Kotlin `split` (empty fields kept), `replace`, `removePrefix`/`Suffix`/`Surrounding`, `contains`, `isBlank` |
| numbers.dfy | Numbers | `String.toInt` (32-bit, optional sign) and the decimal text of an `Int` |
| clock.dfy | Clock | `LocalTime` as seconds of the day, `LocalTime.parse`, `DayOfWeek` |
| collections.dfy | Collections | first-failure mapping, `HashMap` filled by `put` (last write wins), `getOrPut`+`add` grouping, stable `sortedBy`, a set of times turned into a sorted list |
| records.dfy | Records | positional fields of one entry (`split(",")`, `values[i]`, `values[i].toInt()`) |
| route_types.dfy | RouteTypes | `RouteTypes` and `getById` |
| entities.dfy | Entities | `BusStop`, `BusRoute`, `BusCalendar` with `isActiveOn`, `BusSchedule`, `BusLine`, `BusMasterLine`, `OasthData` |
| bus_lines.dfy | BusLines | the route filters of `BusLine` |
| api_fetcher.dfy | ApiFetcher | `OasthAPIFetcher` |
| route_stop_processor.dfy | RouteStopProcessor | `RouteStopProcessor` |
| schedule_processor.dfy | ScheduleProcessor | `ScheduleProcessor` |
| line_processor.dfy | LineProcessor | `LineProcessor` |
| master_line_processor.dfy | MasterLineProcessor | `MasterLineProcessor` |
| estimated_time.dfy | EstimatedTime | the URL built by `EstimatedTimeFetcher.fetchTripTimeEstimation` |
| snapshot.dfy | Oasth | `Oasth.fetchData` and its `get…` helpers, run in sequence |

Every exception the source throws becomes an `Err` with the same cause:

- an index past the end of the fields;
- a `toInt` of non-numeric text;
- a `LocalTime.parse` failure;
- an unknown route type;
- a days string whose length is not 7;
- a dangling stop, route or calendar reference.

Each builder decodes its entries in order and fails with the first failing
entry's error. Within an entry, the error that surfaces is the one of the first
field that the Kotlin code reads.

The calendar of a schedule entry is looked up only for the (line, calendar)
pairs that received a time (ScheduleProcessor.kt:55-59). An entry whose two
times are both `null` therefore never causes a missing-calendar error
(`Active` in `ScheduleProcessor`).

The no-data check tests whether the body *contains* `null` or `[]`
(OasthAPIFetcher.kt:61-67), so a body with a `"null"` value anywhere counts as
no data (`ResponseContainsData`).

## Model

| member | source | states |
|---|---|---|
| ApiFetcher.AssembleEndpointUrl | src/main/kotlin/xyz/teogramm/oasth/util/OasthAPIFetcher.kt:139-141 | the URL starts with the API root and a slash and ends with `/?a=1`; the endpoint name sits between them at a fixed position |
| ApiFetcher.EndpointUrlRoundTrip | src/main/kotlin/xyz/teogramm/oasth/util/OasthAPIFetcher.kt:139-141 | the endpoint name can be read back out of its URL, so two different endpoints never share a URL |
| ApiFetcher.CompleteEndpointName | src/main/kotlin/xyz/teogramm/oasth/util/OasthAPIFetcher.kt:30-34 | the name is unchanged exactly when the parameter is blank; otherwise the parameter follows the name after one slash |
| ApiFetcher.CleanQuoted | src/main/kotlin/xyz/teogramm/oasth/util/OasthAPIFetcher.kt:126-131 | cleaning a piece of a quoted row drops the opening parenthesis (and the closing one on the last piece), removes every quote and shortens every `", "` to `,`, so the fields come out joined by bare commas |
| ApiFetcher.CleanPiece | src/main/kotlin/xyz/teogramm/oasth/util/OasthAPIFetcher.kt:126-131 | the piece of an entry free of quotes and `", "` that does not end in `)` cleans back to the entry, with or without its closing parenthesis |
| ApiFetcher.GetEntries | src/main/kotlin/xyz/teogramm/oasth/util/OasthAPIFetcher.kt:122-134 | one entry per piece of the body cut at `),`, in order, each the cleaned piece; there is always at least one entry, none holds a quote, and a body with no `),` is a single cleaned entry |
| ApiFetcher.EntryCount | src/main/kotlin/xyz/teogramm/oasth/util/OasthAPIFetcher.kt:122-134 | for any body, there is one entry more than there are occurrences of `),` |
| ApiFetcher.GetEntriesOfEncoded | src/main/kotlin/xyz/teogramm/oasth/util/OasthAPIFetcher.kt:122-134 | a tuple-list body whose entries hold no `),` is cut exactly at the entry boundaries: entry i is the cleaned text of the i-th parenthesised entry |
| ApiFetcher.GetEntriesRoundTrip | src/main/kotlin/xyz/teogramm/oasth/util/OasthAPIFetcher.kt:122-134 | entries written as the parenthesised, comma-separated tuple list come back unchanged, provided they hold no quote, no `", "`, no `),` and do not end in `)` |
| ApiFetcher.GetEntriesQuotedRoundTrip | src/main/kotlin/xyz/teogramm/oasth/util/OasthAPIFetcher.kt:122-134 | rows written with every field in quotes, `", "` between fields and each row in parentheses come out one entry per row, in order, with bare commas between the fields; splitting such an entry at commas gives the row's fields back (fields without quotes or commas) |
| Text.SplitCount | src/main/kotlin/xyz/teogramm/oasth/util/OasthAPIFetcher.kt:123 | `split` at a two-character delimiter whose characters differ gives one piece more than the delimiter has occurrences |
| Text.ReplaceByNothing | src/main/kotlin/xyz/teogramm/oasth/util/OasthAPIFetcher.kt:130 | `replace` of one character by nothing drops every occurrence of that character and keeps everything else in order |
| ApiFetcher.ContainsAny | src/main/kotlin/xyz/teogramm/oasth/util/OasthAPIFetcher.kt:61-67 | the loop answers true exactly when one of the markers occurs somewhere in the body |
| ApiFetcher.ResponseContainsData | src/main/kotlin/xyz/teogramm/oasth/util/OasthAPIFetcher.kt:55-70 | a body carries data exactly when it contains neither `null` nor `[]` and is not blank |
| ApiFetcher.NoDataExamples | src/main/kotlin/xyz/teogramm/oasth/util/OasthAPIFetcher.kt:55-70 | `null`, `[]` and a blank body carry no data, and neither does a body that merely holds the value `"null"` |
| ApiFetcher.StripQuotes | src/main/kotlin/xyz/teogramm/oasth/util/OasthAPIFetcher.kt:106 | removing quotes leaves none, and text without quotes is unchanged |
| ApiFetcher.ParseProperty | src/main/kotlin/xyz/teogramm/oasth/util/OasthAPIFetcher.kt:106-110 | a property is kept exactly when it splits at `":"` into two pieces; key and value are then free of quotes |
| ApiFetcher.ParseProperties | src/main/kotlin/xyz/teogramm/oasth/util/OasthAPIFetcher.kt:101-111 | at most one property per piece, all quote-free, none at all when no piece parses |
| ApiFetcher.ToMap | src/main/kotlin/xyz/teogramm/oasth/util/OasthAPIFetcher.kt:99-111 | the object map has exactly the parsed keys, each mapped to the value of its last occurrence |
| ApiFetcher.ParseObject | src/main/kotlin/xyz/teogramm/oasth/util/OasthAPIFetcher.kt:99-113 | every key and value of an object map is free of quotes |
| ApiFetcher.ParseObjects | src/main/kotlin/xyz/teogramm/oasth/util/OasthAPIFetcher.kt:94-114 | blank object texts are skipped, so there is at most one map per text and exactly one when no text is blank |
| ApiFetcher.FormatApiJson | src/main/kotlin/xyz/teogramm/oasth/util/OasthAPIFetcher.kt:80-116 | at most one quote-free map per `}`-separated chunk of the unbracketed body |
| ApiFetcher.FormatApiJsonRoundTrip | src/main/kotlin/xyz/teogramm/oasth/util/OasthAPIFetcher.kt:80-116 | a JSON array of flat objects written from plain keys and values reads back as one map per object, in order, last value per key |
| ApiFetcher.FetchEntriesFromEndpoint | src/main/kotlin/xyz/teogramm/oasth/util/OasthAPIFetcher.kt:15-18 | fails exactly when fetching the endpoint's URL fails; otherwise gives the entries of the fetched body |
| ApiFetcher.FetchFromSimpleJsonEndpoint | src/main/kotlin/xyz/teogramm/oasth/util/OasthAPIFetcher.kt:29-45 | fails exactly when the fetch fails; a no-data body gives no objects, any other body its parsed objects |
| Entities.ActiveDaysDetermine | src/main/kotlin/xyz/teogramm/oasth/base/schedules/BusCalendar.kt:8-11 | `isActiveOn`, the only view of a calendar's private day set, determines it: two calendars answer alike on every day exactly when their day sets are equal |
| RouteTypes.FirstWithId | src/main/kotlin/xyz/teogramm/oasth/base/RouteTypes.kt:21 | a found type is in the list and has the code; nothing is found only when no listed type has the code |
| RouteTypes.GetById | src/main/kotlin/xyz/teogramm/oasth/base/RouteTypes.kt:10-21 | a type is found exactly for codes 1 to 3, and it carries the code asked for |
| RouteTypes.GetByIdTable | src/main/kotlin/xyz/teogramm/oasth/base/RouteTypes.kt:11-13 | 1 is outbound, 2 inbound, 3 circular |
| RouteTypes.GetByIdRoundTrip | src/main/kotlin/xyz/teogramm/oasth/base/RouteTypes.kt:10-21 | looking a type up by its own code finds it, so no two types share a code |
| BusLines.RoutesByType | src/main/kotlin/xyz/teogramm/oasth/base/BusLine.kt:29-33 | the filtered list is a sub-list of the line's routes, in their order, that keeps every route of the type as often as it occurs and nothing else |
| BusLines.OutboundRoutes | src/main/kotlin/xyz/teogramm/oasth/base/BusLine.kt:25-27 | a sub-list of the line's routes holding exactly its outbound routes |
| BusLines.InboundRoutes | src/main/kotlin/xyz/teogramm/oasth/base/BusLine.kt:21-23 | a sub-list of the line's routes holding exactly its inbound routes |
| BusLines.CircularRoutes | src/main/kotlin/xyz/teogramm/oasth/base/BusLine.kt:17-19 | a sub-list of the line's routes holding exactly its circular routes |
| BusLines.FiltersPartition | src/main/kotlin/xyz/teogramm/oasth/base/BusLine.kt:17-33 | the three filters together hold as many routes as the line has |
| Records.Fields | src/main/kotlin/xyz/teogramm/oasth/processing/RouteStopProcessor.kt:30 | an entry's fields joined with commas give the entry back, and no field holds a comma |
| Records.FieldsOfJoin | src/main/kotlin/xyz/teogramm/oasth/processing/RouteStopProcessor.kt:30 | comma-free fields joined with commas split back into the same fields |
| Records.IntField | src/main/kotlin/xyz/teogramm/oasth/processing/RouteStopProcessor.kt:31 | reading an integer field fails with an index error past the end and with a number-format error on bad text, and otherwise gives a 32-bit value |
| Numbers.ToInt | src/main/kotlin/xyz/teogramm/oasth/processing/RouteStopProcessor.kt:31 | a successful read is a 32-bit value written as an optional sign and at least one digit; every failure is a number-format error naming the text |
| Numbers.IntRoundTrip | src/main/kotlin/xyz/teogramm/oasth/processing/RouteStopProcessor.kt:31 | `toInt` reads the decimal text of every 32-bit integer back as that integer |
| Clock.ParseTime | src/main/kotlin/xyz/teogramm/oasth/processing/ScheduleProcessor.kt:98 | a time is read only from five or eight characters with a colon after two digits, and its hour is those two digits |
| Clock.TimeRoundTrip | src/main/kotlin/xyz/teogramm/oasth/processing/ScheduleProcessor.kt:98 | `LocalTime.parse` reads the `HH:mm:ss` text of any time of day back as that time |
| Collections.BuildIndex | src/main/kotlin/xyz/teogramm/oasth/processing/RouteStopProcessor.kt:91-107 | a map filled by decoding every entry in order fails exactly when some entry fails (the first one decides the error); otherwise its keys are the decoded ids and each key holds the last entry with that id |
| Collections.GroupDecoded | src/main/kotlin/xyz/teogramm/oasth/processing/LineProcessor.kt:21-36 | `getOrPut` and `add` over decoded pairs: the keys are the decoded keys, and each list holds, in entry order, exactly the values paired with its key |
| Collections.SelectInOrder | src/main/kotlin/xyz/teogramm/oasth/processing/LineProcessor.kt:28-30 | the values selected for a key keep input order: those of earlier pairs come first, and a single pair contributes its value exactly when its key matches |
| Collections.GroupDecodedPresent | src/main/kotlin/xyz/teogramm/oasth/processing/MasterLineProcessor.kt:23-37 | decoding with skipped elements: fails exactly when an element fails, the first failure deciding the error; otherwise the keys are those of the present pairs and each list holds, in input order, exactly the values present for its key |
| Collections.SortBy | src/main/kotlin/xyz/teogramm/oasth/processing/RouteStopProcessor.kt:74 | `sortedBy` is ordered by the key and a permutation, and keeps entries with equal keys in input order |
| Collections.SortedBucketsDetermine | src/main/kotlin/xyz/teogramm/oasth/processing/RouteStopProcessor.kt:74 | two key-ordered lists with the same elements per key, in the same order, are equal: a stable sort's result is unique |
| Collections.SortedDistinct | src/main/kotlin/xyz/teogramm/oasth/processing/ScheduleProcessor.kt:62-63 | a set of times as a sorted list is strictly ascending and holds exactly the times |
| Collections.AscendingUnique | src/main/kotlin/xyz/teogramm/oasth/processing/ScheduleProcessor.kt:62-63 | two strictly ascending lists with the same elements are equal |
| RouteStopProcessor.DecodeStop | src/main/kotlin/xyz/teogramm/oasth/processing/RouteStopProcessor.kt:94-104 | a stop entry decodes exactly when it has nine fields and fields 0 and 6 are integers; the id is field 0 |
| RouteStopProcessor.CreateStops | src/main/kotlin/xyz/teogramm/oasth/processing/RouteStopProcessor.kt:91-107 | fails exactly when some entry is malformed; otherwise every decoded stop id is a key, each key holds the stop with that id, and a later entry with an id replaces an earlier one |
| RouteStopProcessor.DecodeStopRoundTrip | src/main/kotlin/xyz/teogramm/oasth/processing/RouteStopProcessor.kt:94-104 | a stop written as an entry (with any comma-free address fields) decodes to the same stop |
| RouteStopProcessor.DecodeRouteStop | src/main/kotlin/xyz/teogramm/oasth/processing/RouteStopProcessor.kt:60-63 | a route-stop entry decodes exactly when fields 1, 2 and 3 are integers |
| RouteStopProcessor.DecodeRouteStopRoundTrip | src/main/kotlin/xyz/teogramm/oasth/processing/RouteStopProcessor.kt:60-63 | route id, stop id and index written as an entry read back unchanged |
| RouteStopProcessor.StopIdsOf | src/main/kotlin/xyz/teogramm/oasth/processing/RouteStopProcessor.kt:74 | keeping only the stop ids preserves length and position |
| RouteStopProcessor.RouteStopIds | src/main/kotlin/xyz/teogramm/oasth/processing/RouteStopProcessor.kt:64-75 | a route's list has one stop id per entry of the route, and holds exactly the stop ids of the route's entries |
| RouteStopProcessor.StopsOfRoute | src/main/kotlin/xyz/teogramm/oasth/processing/RouteStopProcessor.kt:64-75 | a stop id is in a route's ordered list exactly when some entry of that route names it |
| RouteStopProcessor.OrderStops | src/main/kotlin/xyz/teogramm/oasth/processing/RouteStopProcessor.kt:58-77 | the routes with a list are exactly the routes with an entry, and each gets its own ordered stop ids |
| RouteStopProcessor.GetStopIdsForRoutes | src/main/kotlin/xyz/teogramm/oasth/processing/RouteStopProcessor.kt:55-78 | fails exactly when some entry is malformed; otherwise has a list for exactly the routes some entry names, and the lists are those of `OrderStops` over the decoded entries: each route's stop ids, stably sorted by stop index |
| RouteStopProcessor.StopOrderCharacterized | src/main/kotlin/xyz/teogramm/oasth/processing/RouteStopProcessor.kt:74 | any ordering of a route's entries by stop index that keeps equal indices in entry order gives exactly the route's list |
| RouteStopProcessor.StopsSortedByIndex | src/main/kotlin/xyz/teogramm/oasth/processing/RouteStopProcessor.kt:74 | a route's list is the stop ids of a permutation of its entries sorted by index |
| RouteStopProcessor.OneEntryPerIndex | src/main/kotlin/xyz/teogramm/oasth/processing/RouteStopProcessor.kt:58-74 | when no route repeats an index, a route has at most one entry at each index |
| RouteStopProcessor.EntryOrderIrrelevant | src/main/kotlin/xyz/teogramm/oasth/processing/RouteStopProcessor.kt:55-78 | when no route repeats an index, shuffling the entries does not change any route's list |
| RouteStopProcessor.ResolveStops | src/main/kotlin/xyz/teogramm/oasth/processing/RouteStopProcessor.kt:39-41 | stop ids resolve exactly when all are known; the result is the stops, position by position, and a failure names an unknown id |
| RouteStopProcessor.DecodeRoute | src/main/kotlin/xyz/teogramm/oasth/processing/RouteStopProcessor.kt:30-42 | a route entry decodes exactly when id and type are integers, the type code is 1 to 3, and every stop of its list is known; an unknown type code is an error of its own; the route's stops are those of its list, in order |
| RouteStopProcessor.CreateRoutes | src/main/kotlin/xyz/teogramm/oasth/processing/RouteStopProcessor.kt:25-45 | fails exactly when some entry fails; otherwise keyed by decoded ids, last entry wins, and every route's stops are resolved from its list |
| RouteStopProcessor.RouteStopsAreStops | src/main/kotlin/xyz/teogramm/oasth/processing/RouteStopProcessor.kt:37-41 | every stop of a created route is one of the given stops, and a route without a list has no stops |
| RouteStopProcessor.DecodeRouteRoundTrip | src/main/kotlin/xyz/teogramm/oasth/processing/RouteStopProcessor.kt:30-42 | a route with resolved stops, written as an entry, decodes back to the same route |
| RouteStopProcessor.ResolveStopsOfResolved | src/main/kotlin/xyz/teogramm/oasth/processing/RouteStopProcessor.kt:37-41 | resolving the list of a route whose stops were resolved gives its stops again |
| ScheduleProcessor.BitIndex | src/main/kotlin/xyz/teogramm/oasth/processing/ScheduleProcessor.kt:163-168 | each day has a position 0..6 in the bit string, and position 0 is Sunday alone |
| ScheduleProcessor.DayAtBitIndex | src/main/kotlin/xyz/teogramm/oasth/processing/ScheduleProcessor.kt:163-168 | positions and days are in one-to-one correspondence |
| ScheduleProcessor.ExtractDaysFromBitString | src/main/kotlin/xyz/teogramm/oasth/processing/ScheduleProcessor.kt:150-172 | fails, naming the length, exactly when the string is not 7 characters long; otherwise a day is active exactly when its character is not `0` |
| ScheduleProcessor.WeekdaysBitString | src/main/kotlin/xyz/teogramm/oasth/processing/ScheduleProcessor.kt:150-172 | `0111110` is Monday to Friday |
| ScheduleProcessor.SundayBitString | src/main/kotlin/xyz/teogramm/oasth/processing/ScheduleProcessor.kt:150-172 | `1000000` is Sunday alone |
| ScheduleProcessor.NoDaysBitString | src/main/kotlin/xyz/teogramm/oasth/processing/ScheduleProcessor.kt:150-172 | `0000000` is no day |
| ScheduleProcessor.DecodeCalendar | src/main/kotlin/xyz/teogramm/oasth/processing/ScheduleProcessor.kt:134-139 | a calendar entry decodes exactly when it has four fields, an integer id and a 7-character days field; the calendar is active on a day exactly when that day's character is not `0` |
| ScheduleProcessor.CreateCalendars | src/main/kotlin/xyz/teogramm/oasth/processing/ScheduleProcessor.kt:131-142 | fails exactly when some entry is malformed; otherwise keyed by calendar id, last entry wins |
| ScheduleProcessor.CalendarActiveDays | src/main/kotlin/xyz/teogramm/oasth/base/schedules/BusCalendar.kt:8-11 | a calendar read from its entry `isActiveOn` exactly the days whose character is not `0` |
| ScheduleProcessor.ParseTimeField | src/main/kotlin/xyz/teogramm/oasth/processing/ScheduleProcessor.kt:98 | a time field fails with the text exactly when it is not a time |
| ScheduleProcessor.DecodeDeparture | src/main/kotlin/xyz/teogramm/oasth/processing/ScheduleProcessor.kt:95-98 | a `null` time gives no departure without reading the line field; otherwise line and time are both read; a missing time field is an index error and an unreadable time a format error |
| ScheduleProcessor.DecodeScheduleEntry | src/main/kotlin/xyz/teogramm/oasth/processing/ScheduleProcessor.kt:87-116 | the calendar id is read first; each direction is absent exactly when its time is `null`; a decoded entry has at least eleven fields; a failure is an index, number or time error, never a missing calendar |
| ScheduleProcessor.DecodeScheduleEntries | src/main/kotlin/xyz/teogramm/oasth/processing/ScheduleProcessor.kt:86-98 | the entries decode, in order, exactly when each one does, one decoded entry per entry; a failure is an index, number or time error |
| ScheduleProcessor.DirectionTimes | src/main/kotlin/xyz/teogramm/oasth/processing/ScheduleProcessor.kt:95-115 | reference: a time is listed for a line, calendar and direction exactly when some entry of that calendar has that departure |
| ScheduleProcessor.ExtractDepartureTimes | src/main/kotlin/xyz/teogramm/oasth/processing/ScheduleProcessor.kt:82-119 | the accumulated map has a line exactly when some entry gives it a time; under it, a calendar exactly when such an entry has that calendar; and a time per direction exactly when some entry gives it |
| ScheduleProcessor.SortedTimes | src/main/kotlin/xyz/teogramm/oasth/processing/ScheduleProcessor.kt:62-63 | the time list of a schedule is strictly ascending and holds exactly the gathered times |
| ScheduleProcessor.ScheduleOf | src/main/kotlin/xyz/teogramm/oasth/processing/ScheduleProcessor.kt:56-64 | a line's schedule under a calendar has that calendar, and strictly ascending times per direction that are exactly the departures the entries give |
| ScheduleProcessor.FirstMissingCalendar | src/main/kotlin/xyz/teogramm/oasth/processing/ScheduleProcessor.kt:56-59 | nothing is missing exactly when every entry that gives a time names a known calendar; a reported id is unknown and named by such an entry |
| ScheduleProcessor.SchedulesOf | src/main/kotlin/xyz/teogramm/oasth/processing/ScheduleProcessor.kt:47-70 | fails with a missing calendar exactly when an entry that gives a time names an unknown one; otherwise the lines are exactly those given a time, and each holds exactly the schedules of the calendars it has times under |
| ScheduleProcessor.CreateSchedules | src/main/kotlin/xyz/teogramm/oasth/processing/ScheduleProcessor.kt:47-70 | a malformed entry is reported before any calendar is looked up; once every entry decodes the result is exactly `SchedulesOf` of the decoded entries, so it fails with a missing calendar exactly when an entry with a time names an unknown one, and otherwise every schedule holds strictly ascending times; the lines are those some entry gives a time; every schedule's calendar is one of the given calendars |
| ScheduleProcessor.OneSchedulePerCalendar | src/main/kotlin/xyz/teogramm/oasth/processing/ScheduleProcessor.kt:55-67 | with calendars keyed by their ids, a line never has two schedules for one calendar |
| ScheduleProcessor.NullSkipsOneDirection | src/main/kotlin/xyz/teogramm/oasth/processing/ScheduleProcessor.kt:95-116 | an entry with a `null` outbound time still contributes its inbound time |
| LineProcessor.RouteOfEntry | src/main/kotlin/xyz/teogramm/oasth/processing/LineProcessor.kt:24-30 | a route entry gives (line id, route) exactly when both ids are integers and the route is known; an unknown route is a missing-route error naming it |
| LineProcessor.GetRoutesForLineIds | src/main/kotlin/xyz/teogramm/oasth/processing/LineProcessor.kt:21-36 | fails exactly when some entry fails; otherwise has a list for exactly the lines some entry names, holding exactly that line's routes in entry order (the `Select` of the decoded pairs), each one of the given routes |
| LineProcessor.RouteCountsAddUp | src/main/kotlin/xyz/teogramm/oasth/processing/LineProcessor.kt:21-36 | over all lines, the route lists hold one route per entry |
| LineProcessor.DecodeLine | src/main/kotlin/xyz/teogramm/oasth/processing/LineProcessor.kt:58-67 | a line entry decodes exactly when it has four fields and an integer id; the line gets the routes and schedules held for its id, none when there are none |
| LineProcessor.CreateLines | src/main/kotlin/xyz/teogramm/oasth/processing/LineProcessor.kt:51-70 | fails exactly when some entry is malformed; otherwise keyed by line id, last entry wins, routes and schedules defaulted to empty |
| LineProcessor.DecodeLineRoundTrip | src/main/kotlin/xyz/teogramm/oasth/processing/LineProcessor.kt:58-62 | id, number and names written as an entry read back unchanged |
| MasterLineProcessor.LineOfDetail | src/main/kotlin/xyz/teogramm/oasth/processing/MasterLineProcessor.kt:24-31 | a details entry fails only on a short or non-numeric entry, never on an unknown line, which it skips |
| MasterLineProcessor.GetLinesForMasterLineIds | src/main/kotlin/xyz/teogramm/oasth/processing/MasterLineProcessor.kt:20-42 | never fails on a dangling line; a master line has a list exactly when some entry pairs it with a known line; the list holds exactly those lines, in entry order (the `Select` of the present pairs), and is never empty |
| MasterLineProcessor.MasterLineCountsAddUp | src/main/kotlin/xyz/teogramm/oasth/processing/MasterLineProcessor.kt:20-42 | over all master lines, the lists hold one line per entry that names a known line |
| MasterLineProcessor.DecodeMasterLine | src/main/kotlin/xyz/teogramm/oasth/processing/MasterLineProcessor.kt:54-60 | a master line entry decodes exactly when it has four fields and an integer id; it gets the lines held for its id, none when there are none |
| MasterLineProcessor.CreateMasterLines | src/main/kotlin/xyz/teogramm/oasth/processing/MasterLineProcessor.kt:50-63 | fails exactly when some entry is malformed; otherwise keyed by id, last entry wins, lines defaulted to empty |
| MasterLineProcessor.DecodeMasterLineRoundTrip | src/main/kotlin/xyz/teogramm/oasth/processing/MasterLineProcessor.kt:54-58 | id, number and names written as an entry read back unchanged |
| EstimatedTime.OasthDayNumber | src/main/kotlin/xyz/teogramm/oasth/util/EstimatedTimeFetcher.kt:29-31 | the service's day number is 1..7, 1 exactly for Sunday, one more than the ISO number for every other day |
| EstimatedTime.OasthDayRoundTrip | src/main/kotlin/xyz/teogramm/oasth/util/EstimatedTimeFetcher.kt:29-31 | the numbering is a bijection between the seven days and 1..7 |
| EstimatedTime.OasthDayExamples | src/main/kotlin/xyz/teogramm/oasth/util/EstimatedTimeFetcher.kt:29-31 | Sunday is 1, Monday 2, Saturday 7 |
| EstimatedTime.DirectionString | src/main/kotlin/xyz/teogramm/oasth/util/EstimatedTimeFetcher.kt:57-64 | the direction is `b` exactly for inbound routes and `a` exactly for the others |
| EstimatedTime.TripEstimationUrl | src/main/kotlin/xyz/teogramm/oasth/util/EstimatedTimeFetcher.kt:34-35 | the request URL starts with the estimation root and ends with `/?a=1` |
| EstimatedTime.TripEstimationUrlSegments | src/main/kotlin/xyz/teogramm/oasth/util/EstimatedTimeFetcher.kt:33-35 | for slash-free stop codes, the path splits into direction, origin, destination, day number, hour and line id, in that order |
| EstimatedTime.OnlyTheHourMatters | src/main/kotlin/xyz/teogramm/oasth/util/EstimatedTimeFetcher.kt:28 | two times give the same URL exactly when they fall in the same hour |
| Oasth.FetchRoutes | src/main/kotlin/xyz/teogramm/oasth/Oasth.kt:85-91 | the routes are keyed by id and every stop of every route is one of the given stops |
| Oasth.FetchLines | src/main/kotlin/xyz/teogramm/oasth/Oasth.kt:96-106 | the lines are keyed by id, every route of a line is one of the given routes, and every schedule is one held for the line |
| Oasth.FetchMasterLines | src/main/kotlin/xyz/teogramm/oasth/Oasth.kt:108-117 | the master lines are keyed by id and every line of one is one of the given lines |
| Oasth.FetchData | src/main/kotlin/xyz/teogramm/oasth/Oasth.kt:50-70 | a snapshot that is built is closed under its links: each map keyed by its entities' ids, every referenced stop, route, line and calendar present; a failed calendar fetch fails the whole call |

## Left out

- HTTP, gzip and stream reading (`WebFetcher`) are not part of this model. The request is the parameter `fetch`, and its failure is an `Err`.
- `OasthLive` is not part of this model: it consists of network calls and `toDouble` or date conversions.
- `EstimatedTimeFetcher.extractTimeFromResponse` is not modelled: it matches a regular expression against scraped HTML.
- Only the URL of `fetchTripTimeEstimation` is modelled, not the request.
- Coroutines in `Oasth.fetchData` are modelled as one sequential computation in dependency order. Which error surfaces when several coroutines fail is fixed by that order, whereas the source leaves it to scheduling.
- The cache of `Oasth` is not modelled. Its flag `dataFetched` is a `val` that is always `false`, so every successful call downloads again, as every call of the model does.
- `Oasth.FetchData` is a function of the fetched bodies alone, with no state carried between calls. In the source the coroutine scope of an `Oasth` object (a `CoroutineScope(Dispatchers.IO)` with a plain `Job`, Oasth.kt:39) is cancelled when one `async` child fails, and every later `fetchData` on that object then fails with a cancellation and downloads nothing. The model does not keep that per-object state.
- `ScheduleProcessor.SchedulesOf` reports the first missing calendar in entry order. The source reports the first one its `HashMap` iteration meets, which is an order the model does not fix. Both report a calendar that is missing and named by an entry with a time.
- Longitude and latitude of a stop are kept as their text: `toDouble` parsing of floating point is not modelled.
- `Clock.ParseTime` accepts `HH:mm` and `HH:mm:ss` only. `LocalTime.parse` also accepts fractional seconds, which the schedule data does not use.
- `BusCalendar` is a plain class with identity equality in the source; the model compares calendars by value (`BusRoute` is a `data class`, compared by value in both). Sets of `BusSchedule` collapse two schedules only when their calendar is the same object. In the model, two calendars with equal fields count as the same.
- The `toString` methods and the debug exporters are not modelled: they are presentation.
- `Numbers.ToInt` accepts ASCII digits only. Kotlin's `toInt` (`Integer.parseInt`) also accepts any other Unicode decimal digit, such as Arabic-Indic `١٢` for 12. There the model gives a number-format error where the source succeeds. The data uses ASCII digits, and Dafny has no table of Unicode digit classes.
- Strings are sequences of Dafny characters (Unicode scalar values), and lengths and indices count them. Kotlin counts UTF-16 code units, so a supplementary character counts twice in the source. For example, the `length != 7` test of `extractDaysFromBitString` differs from `ScheduleProcessor.ExtractDaysFromBitString` on such text. The data is ASCII and BMP Greek, where the two counts agree.
- `Numbers.ToInt` states that a successful result is a 32-bit value written in digits, with an optional sign. It does not state which out-of-range digit strings fail.
- `ApiFetcher.FormatApiJson` has no general "objects in, maps out" statement beyond the round trip for plain objects. Bodies with quotes or commas inside values are cut the way the code cuts them, and the model states no more about them.
