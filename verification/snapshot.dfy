/** Oasth.fetchData: the builders chained in their dependency order, each
    endpoint's entries obtained through a caller-supplied fetch of a URL. The
    concurrent orchestration of the original becomes one sequential
    computation; the first failure, in the order below, is the result. */
module Oasth {
  import opened Results
  import opened Entities
  import opened ApiFetcher
  import opened RouteStopProcessor
  import opened ScheduleProcessor
  import opened LineProcessor
  import opened MasterLineProcessor

  /** Every entity a snapshot links to is itself in the snapshot: a route's
      stops, a line's routes and its schedules' calendars, a master line's
      lines; and every map is keyed by the ids of its entities. */
  predicate Linked(d: Snapshot) {
    && (forall k :: k in d.stops ==> d.stops[k].internalId == k)
    && (forall k :: k in d.routes ==> d.routes[k].internalId == k)
    && (forall k :: k in d.lines ==> d.lines[k].internalId == k)
    && (forall k :: k in d.masterLines ==> d.masterLines[k].internalId == k)
    && (forall k :: k in d.calendars ==> d.calendars[k].id == k)
    && (forall k, s :: k in d.routes && s in d.routes[k].stops ==> s in d.stops.Values)
    && (forall k, r :: k in d.lines && r in d.lines[k].routes ==> r in d.routes.Values)
    && (forall k, s :: k in d.lines && s in d.lines[k].schedules ==> s.calendar in d.calendars.Values)
    && (forall k, l :: k in d.masterLines && l in d.masterLines[k].lines ==> l in d.lines.Values)
  }

  /** The routes stage: route entries and route stop entries fetched, stop
      lists ordered, routes built over the given stops. The route entries are
      handed on, since the lines stage reads them again. */
  function FetchRoutes(stops: map<int, Stop>, fetch: string -> Result<string>): (r: Result<(seq<string>, map<int, Route>)>)
    ensures r.Ok? ==> forall k :: k in r.value.1 ==> r.value.1[k].internalId == k
    ensures r.Ok? ==> forall k, s :: k in r.value.1 && s in r.value.1[k].stops ==> s in stops.Values
  {
    var routeEntries :- FetchEntriesFromEndpoint("getRoutes", fetch);
    var routeStopEntries :- FetchEntriesFromEndpoint("getRouteStops", fetch);
    var routeStopIds :- GetStopIdsForRoutes(routeStopEntries);
    var routes :- CreateRoutes(stops, routeEntries, routeStopIds);
    assert forall k, s :: k in routes && s in routes[k].stops ==> s in stops.Values by {
      forall k, s | k in routes && s in routes[k].stops
        ensures s in stops.Values
      {
        RouteStopsAreStops(routes[k], stops, routeStopIds);
      }
    }
    Ok((routeEntries, routes))
  }

  /** The lines stage: line entries fetched, each line given its routes and
      its schedules. */
  function FetchLines(routeEntries: seq<string>, routes: map<int, Route>, schedules: map<int, set<Schedule>>,
                      fetch: string -> Result<string>): (r: Result<map<int, Line>>)
    ensures r.Ok? ==> forall k :: k in r.value ==> r.value[k].internalId == k
    ensures r.Ok? ==> forall k, route :: k in r.value && route in r.value[k].routes ==> route in routes.Values
    ensures r.Ok? ==> forall k, s :: k in r.value && s in r.value[k].schedules ==> k in schedules && s in schedules[k]
  {
    var lineEntries :- FetchEntriesFromEndpoint("getLines", fetch);
    var lineRoutes :- GetRoutesForLineIds(routeEntries, routes);
    CreateLines(lineEntries, lineRoutes, schedules)
  }

  /** The master lines stage: details and master line entries fetched, each
      master line given the known lines its details name. */
  function FetchMasterLines(lines: map<int, Line>, fetch: string -> Result<string>): (r: Result<map<int, MasterLine>>)
    ensures r.Ok? ==> forall k :: k in r.value ==> r.value[k].internalId == k
    ensures r.Ok? ==> forall k, l :: k in r.value && l in r.value[k].lines ==> l in lines.Values
  {
    var detailEntries :- FetchEntriesFromEndpoint("getMasterlinesDetails", fetch);
    var masterLineEntries :- FetchEntriesFromEndpoint("getMasterlines", fetch);
    var linesForMasterLineIds :- GetLinesForMasterLineIds(detailEntries, lines);
    CreateMasterLines(masterLineEntries, linesForMasterLineIds)
  }

  /** fetchData: calendars, then schedules, stops, routes, lines and master
      lines. Whatever the fetched bodies hold, a snapshot that is built is
      closed under its links. */
  function FetchData(fetch: string -> Result<string>): (r: Result<Snapshot>)
    ensures r.Ok? ==> Linked(r.value)
    ensures fetch(AssembleEndpointUrl("getSched_cats")).Err? ==> r.Err?
  {
    var calendarEntries :- FetchEntriesFromEndpoint("getSched_cats", fetch);
    var calendars :- CreateCalendars(calendarEntries);
    var scheduleEntries :- FetchEntriesFromEndpoint("getSched_entries", fetch);
    var schedules :- CreateSchedules(scheduleEntries, calendars);
    var stopEntries :- FetchEntriesFromEndpoint("getStopsB", fetch);
    var stops :- CreateStops(stopEntries);
    var routeData :- FetchRoutes(stops, fetch);
    var lines :- FetchLines(routeData.0, routeData.1, schedules, fetch);
    var masterLines :- FetchMasterLines(lines, fetch);
    Ok(Snapshot(masterLines, lines, routeData.1, stops, calendars))
  }
}
