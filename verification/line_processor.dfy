/** LineProcessor: each line's routes from the route entries, and lines from
    line entries with their routes and schedules attached. */
module LineProcessor {
  import opened Results
  import opened Text
  import opened Numbers
  import opened Records
  import opened Collections
  import opened Entities

  // --------------------------------------------------- routes per line

  /** One route entry read for its line: the route id (field 0) and the line
      id (field 1) are read, then the route is looked up; a route the map
      lacks fails. The result pairs the line id with the route. */
  function RouteOfEntry(entry: string, routes: map<int, Route>): (r: Result<(int, Route)>)
    ensures r.Ok? <==> var v := Fields(entry);
      |v| >= 2 && ToInt(v[0]).Ok? && ToInt(v[1]).Ok? && ToInt(v[0]).value in routes
    ensures r.Ok? ==> var v := Fields(entry);
      ToInt(v[1]) == Ok(r.value.0) && r.value.1 == routes[ToInt(v[0]).value]
    ensures var v := Fields(entry);
      (|v| >= 2 && ToInt(v[0]).Ok? && ToInt(v[1]).Ok? && ToInt(v[0]).value !in routes
       ==> r == Err(MissingRoute(ToInt(v[0]).value)))
  {
    var v := Fields(entry);
    var routeId :- IntField(v, 0);
    var lineId :- IntField(v, 1);
    var route :- OrFail(if routeId in routes then Some(routes[routeId]) else None, MissingRoute(routeId));
    Ok((lineId, route))
  }

  /** getRoutesForLineIds: the routes of every line that has an entry, in
      entry order; the first entry that fails stops the whole call. */
  function GetRoutesForLineIds(entries: seq<string>, routes: map<int, Route>): (r: Result<map<int, seq<Route>>>)
    ensures r.Ok? <==> forall i :: 0 <= i < |entries| ==> RouteOfEntry(entries[i], routes).Ok?
    ensures r.Err? ==> exists i :: 0 <= i < |entries| && RouteOfEntry(entries[i], routes) == Err(r.error)
    ensures r.Ok? ==> forall lineId :: lineId in r.value <==>
      exists i :: 0 <= i < |entries| && RouteOfEntry(entries[i], routes).value.0 == lineId
    ensures r.Ok? ==> forall lineId, route :: lineId in r.value ==>
      (route in r.value[lineId] <==> exists i :: 0 <= i < |entries| && RouteOfEntry(entries[i], routes).value == (lineId, route))
    ensures r.Ok? ==> forall lineId, route :: lineId in r.value && route in r.value[lineId] ==> route in routes.Values
    ensures r.Ok? ==> forall lineId :: lineId in r.value ==>
      r.value[lineId] == Select(MapAll(entries, e => RouteOfEntry(e, routes)).value, lineId)
  {
    var r := GroupDecoded(entries, e => RouteOfEntry(e, routes));
    if r.Ok? then
      LineRoutesKnown(entries, routes, r.value);
      r
    else r
  }

  /** Every grouped route is one of the given routes. */
  lemma LineRoutesKnown(entries: seq<string>, routes: map<int, Route>, m: map<int, seq<Route>>)
    requires forall i :: 0 <= i < |entries| ==> RouteOfEntry(entries[i], routes).Ok?
    requires forall lineId, route :: lineId in m ==>
      (route in m[lineId] <==> exists i :: 0 <= i < |entries| && RouteOfEntry(entries[i], routes).value == (lineId, route))
    ensures forall lineId, route :: lineId in m && route in m[lineId] ==> route in routes.Values
  {
    forall lineId, route | lineId in m && route in m[lineId]
      ensures route in routes.Values
    {
      var i :| 0 <= i < |entries| && RouteOfEntry(entries[i], routes).value == (lineId, route);
    }
  }

  /** Every entry gives its line exactly one route: over the lines, the
      route lists' lengths add up to the number of entries. */
  lemma RouteCountsAddUp(entries: seq<string>, routes: map<int, Route>, lineIds: seq<int>)
    requires GetRoutesForLineIds(entries, routes).Ok?
    requires Distinct(lineIds)
    requires forall k :: k in lineIds <==> k in GetRoutesForLineIds(entries, routes).value
    ensures SumSizes(GetRoutesForLineIds(entries, routes).value, lineIds) == |entries|
  {
    GroupSizesTotal(entries, e => RouteOfEntry(e, routes), lineIds);
  }

  // ------------------------------------------------------------- lines

  /** One line entry: id (field 0), number (1), names (2, 3); the routes and
      schedules are those the maps hold for the id, none when they hold none. */
  function DecodeLine(entry: string, routesForLineIds: map<int, seq<Route>>, schedulesForLineIds: map<int, set<Schedule>>)
    : (r: Result<Line>)
    ensures r.Ok? <==> var v := Fields(entry); |v| >= 4 && ToInt(v[0]).Ok?
    ensures r.Ok? ==> var v := Fields(entry);
      && ToInt(v[0]) == Ok(r.value.internalId)
      && r.value.number == v[1] && r.value.nameEL == v[2] && r.value.nameEN == v[3]
    ensures r.Ok? ==> (r.value.internalId in routesForLineIds ==> r.value.routes == routesForLineIds[r.value.internalId])
    ensures r.Ok? ==> (r.value.internalId !in routesForLineIds ==> r.value.routes == [])
    ensures r.Ok? ==> (r.value.internalId in schedulesForLineIds ==> r.value.schedules == schedulesForLineIds[r.value.internalId])
    ensures r.Ok? ==> (r.value.internalId !in schedulesForLineIds ==> r.value.schedules == {})
  {
    var v := Fields(entry);
    var id :- IntField(v, 0);
    var number :- Field(v, 1);
    var nameEL :- Field(v, 2);
    var nameEN :- Field(v, 3);
    var lineRoutes := if id in routesForLineIds then routesForLineIds[id] else [];
    var lineSchedules := if id in schedulesForLineIds then schedulesForLineIds[id] else {};
    Ok(Line(id, number, nameEL, nameEN, lineRoutes, lineSchedules))
  }

  function LineKey(l: Line): int {
    l.internalId
  }

  /** createLines: every entry decoded, in order, each line stored under its
      id; a later entry with the same id replaces an earlier one. */
  function CreateLines(entries: seq<string>, routesForLineIds: map<int, seq<Route>>, schedulesForLineIds: map<int, set<Schedule>>)
    : (r: Result<map<int, Line>>)
    ensures var decode := e => DecodeLine(e, routesForLineIds, schedulesForLineIds);
      && (r.Ok? <==> forall i :: 0 <= i < |entries| ==> decode(entries[i]).Ok?)
      && (r.Ok? ==> forall k :: k in r.value <==> exists i :: 0 <= i < |entries| && decode(entries[i]).value.internalId == k)
      && (r.Ok? ==> forall k :: k in r.value ==> r.value[k].internalId == k)
      && (r.Ok? ==> forall i :: 0 <= i < |entries| && LastDecoded(entries, decode, LineKey, i) ==>
                      r.value[decode(entries[i]).value.internalId] == decode(entries[i]).value)
    ensures r.Ok? ==> forall k :: k in r.value ==>
      r.value[k].routes == (if k in routesForLineIds then routesForLineIds[k] else []) &&
      r.value[k].schedules == (if k in schedulesForLineIds then schedulesForLineIds[k] else {})
  {
    var decode := e => DecodeLine(e, routesForLineIds, schedulesForLineIds);
    var r := BuildIndex(entries, decode, LineKey);
    if r.Ok? then
      LinesCarryTheirMaps(entries, routesForLineIds, schedulesForLineIds, decode, r.value);
      r
    else r
  }

  /** Every built line holds the routes and schedules the maps give its id. */
  lemma LinesCarryTheirMaps(entries: seq<string>, routesForLineIds: map<int, seq<Route>>,
                            schedulesForLineIds: map<int, set<Schedule>>, decode: string -> Result<Line>, m: map<int, Line>)
    requires forall e :: decode(e) == DecodeLine(e, routesForLineIds, schedulesForLineIds)
    requires forall i :: 0 <= i < |entries| ==> decode(entries[i]).Ok?
    requires forall k :: k in m ==> exists i :: 0 <= i < |entries| && decode(entries[i]).value == m[k]
    requires forall k :: k in m ==> m[k].internalId == k
    ensures forall k :: k in m ==>
      m[k].routes == (if k in routesForLineIds then routesForLineIds[k] else []) &&
      m[k].schedules == (if k in schedulesForLineIds then schedulesForLineIds[k] else {})
  {
    forall k | k in m
      ensures m[k].routes == (if k in routesForLineIds then routesForLineIds[k] else [])
      ensures m[k].schedules == (if k in schedulesForLineIds then schedulesForLineIds[k] else {})
    {
      var i :| 0 <= i < |entries| && decode(entries[i]).value == m[k];
    }
  }

  /** The text of a line entry: id, number, names, and any further fields. */
  function EncodeLine(id: int, number: string, nameEL: string, nameEN: string, rest: seq<string>): string {
    Join([IntToString(id), number, nameEL, nameEN] + rest, ",")
  }

  /** A line read back from its entry has the entry's id, number and names,
      whatever the fields after them hold. */
  lemma DecodeLineRoundTrip(id: int, number: string, nameEL: string, nameEN: string, rest: seq<string>,
                            routesForLineIds: map<int, seq<Route>>, schedulesForLineIds: map<int, set<Schedule>>)
    requires IsInt32(id)
    requires ',' !in number && ',' !in nameEL && ',' !in nameEN
    requires forall i :: 0 <= i < |rest| ==> ',' !in rest[i]
    ensures var r := DecodeLine(EncodeLine(id, number, nameEL, nameEN, rest), routesForLineIds, schedulesForLineIds);
      r.Ok? && r.value.internalId == id && r.value.number == number && r.value.nameEL == nameEL && r.value.nameEN == nameEN
  {
    var v := [IntToString(id), number, nameEL, nameEN] + rest;
    IntTextIsField(id);
    FieldsOfJoin(v);
    assert Fields(EncodeLine(id, number, nameEL, nameEN, rest)) == v;
    IntRoundTrip(id);
  }
}
