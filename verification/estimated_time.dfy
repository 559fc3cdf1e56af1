/** The pure part of EstimatedTimeFetcher: the request URL for a trip time
    estimation, built from a line, a direction, two stop codes, a day and an
    hour. */
module EstimatedTime {
  import opened Results
  import opened Text
  import opened Numbers
  import opened Clock
  import opened RouteTypes

  const EstimationUrl: string := "https://oasth.gr/en/routeinfo/estimation/"
  const EstimationTail: string := "/?a=1"

  /** The service numbers days from Sunday (1) to Saturday (7), java.time from
      Monday (1) to Sunday (7): `(dayOfWeek.value % 7) + 1`. */
  function OasthDayNumber(d: DayOfWeek): (n: int)
    ensures 1 <= n <= 7
    ensures n == 1 <==> d == Sunday
    ensures d != Sunday ==> n == DayValue(d) + 1
  {
    (DayValue(d) % 7) + 1
  }

  /** The day a service day number stands for. */
  function DayOfOasthNumber(n: int): (d: DayOfWeek)
    requires 1 <= n <= 7
  {
    if n == 1 then Sunday else DayOf(n - 1)
  }

  /** The numbering is a bijection between the seven days and 1..7. */
  lemma OasthDayRoundTrip(d: DayOfWeek, n: int)
    requires 1 <= n <= 7
    ensures DayOfOasthNumber(OasthDayNumber(d)) == d
    ensures OasthDayNumber(DayOfOasthNumber(n)) == n
  {
    DayOfValue(d);
  }

  lemma OasthDayExamples()
    ensures OasthDayNumber(Sunday) == 1 && OasthDayNumber(Monday) == 2 && OasthDayNumber(Saturday) == 7
  {
  }

  /** getDirectionStringForRouteType: "a" for outbound and circular routes,
      "b" for inbound ones. */
  function DirectionString(t: RouteType): (s: string)
    ensures s == "b" <==> t == Inbound
    ensures s == "a" <==> t != Inbound
  {
    match t
    case Circular => "a"
    case Outbound => "a"
    case Inbound => "b"
  }

  /** The path segments of an estimation request, in order: direction, origin
      stop, destination stop, day number, hour, line id. Only the hour of
      `time` is used. */
  function EstimationSegments(lineId: int, direction: RouteType, origin: string, destination: string,
                              day: DayOfWeek, time: Time): seq<string>
  {
    [DirectionString(direction), origin, destination, IntToString(OasthDayNumber(day)), IntToString(Hour(time)), IntToString(lineId)]
  }

  /** The request URL of fetchTripTimeEstimation. */
  function TripEstimationUrl(lineId: int, direction: RouteType, origin: string, destination: string,
                             day: DayOfWeek, time: Time): (url: string)
    ensures StartsWith(url, EstimationUrl) && EndsWith(url, EstimationTail)
    ensures |url| >= |EstimationUrl| + |EstimationTail|
  {
    EstimationUrl + Join(EstimationSegments(lineId, direction, origin, destination, day, time), "/") + EstimationTail
  }

  /** Stop codes without a '/' can be read back from the URL: splitting its
      path at '/' gives the segments in order. */
  lemma TripEstimationUrlSegments(lineId: int, direction: RouteType, origin: string, destination: string,
                                  day: DayOfWeek, time: Time)
    requires '/' !in origin && '/' !in destination
    ensures var url := TripEstimationUrl(lineId, direction, origin, destination, day, time);
      Split(url[|EstimationUrl|..|url| - |EstimationTail|], "/") ==
        [DirectionString(direction), origin, destination, IntToString(OasthDayNumber(day)), IntToString(Hour(time)), IntToString(lineId)]
  {
    var parts := EstimationSegments(lineId, direction, origin, destination, day, time);
    var url := TripEstimationUrl(lineId, direction, origin, destination, day, time);
    var path := Join(parts, "/");
    assert url == EstimationUrl + path + EstimationTail;
    assert url[|EstimationUrl|..|url| - |EstimationTail|] == path;
    IntTextChars(OasthDayNumber(day), '/');
    IntTextChars(Hour(time), '/');
    IntTextChars(lineId, '/');
    forall i | 0 <= i < |parts|
      ensures Separable(parts[i], "/")
    {
      SeparableWithoutLead(parts[i], "/");
    }
    SplitJoin(parts, "/");
  }

  /** Two times in the same hour give the same URL; different hours give
      different ones. */
  lemma OnlyTheHourMatters(lineId: int, direction: RouteType, origin: string, destination: string,
                           day: DayOfWeek, t1: Time, t2: Time)
    requires '/' !in origin && '/' !in destination
    ensures (TripEstimationUrl(lineId, direction, origin, destination, day, t1) ==
             TripEstimationUrl(lineId, direction, origin, destination, day, t2)) <==> Hour(t1) == Hour(t2)
  {
    if TripEstimationUrl(lineId, direction, origin, destination, day, t1) ==
       TripEstimationUrl(lineId, direction, origin, destination, day, t2) {
      TripEstimationUrlSegments(lineId, direction, origin, destination, day, t1);
      TripEstimationUrlSegments(lineId, direction, origin, destination, day, t2);
      var h1 := IntToString(Hour(t1));
      var h2 := IntToString(Hour(t2));
      assert h1 == h2;
      IntRoundTrip(Hour(t1));
      IntRoundTrip(Hour(t2));
    }
  }
}
