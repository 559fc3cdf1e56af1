/** The route filters of BusLine: a line's routes of one direction, in line order. */
module BusLines {
  import opened RouteTypes
  import opened Entities
  import opened Collections

  /** getRoutesByType: `routes.filter { it.type == t }`. The result is the sub-list
      of `routes` that holds every route of type `t`, as often as `routes` does, and nothing else. */
  function RoutesByType(routes: seq<Route>, t: RouteType): (r: seq<Route>)
    ensures IsSubsequence(r, routes)
    ensures forall x :: x in r ==> x.routeType == t
    ensures forall x :: multiset(r)[x] == if x.routeType == t then multiset(routes)[x] else 0
  {
    if |routes| == 0 then []
    else
      var rest := RoutesByType(routes[1..], t);
      assert routes == [routes[0]] + routes[1..];
      if routes[0].routeType == t then
        assert ([routes[0]] + rest)[1..] == rest;
        [routes[0]] + rest
      else
        rest
  }

  function OutboundRoutes(line: Line): (r: seq<Route>)
    ensures IsSubsequence(r, line.routes)
    ensures forall x :: x in r <==> x in line.routes && x.routeType == Outbound
  {
    RoutesByType(line.routes, Outbound)
  }

  function InboundRoutes(line: Line): (r: seq<Route>)
    ensures IsSubsequence(r, line.routes)
    ensures forall x :: x in r <==> x in line.routes && x.routeType == Inbound
  {
    RoutesByType(line.routes, Inbound)
  }

  function CircularRoutes(line: Line): (r: seq<Route>)
    ensures IsSubsequence(r, line.routes)
    ensures forall x :: x in r <==> x in line.routes && x.routeType == Circular
  {
    RoutesByType(line.routes, Circular)
  }

  /** The three filters split a line's routes: together they hold exactly as many routes as the line. */
  lemma {:induction false} FiltersPartition(routes: seq<Route>)
    ensures |RoutesByType(routes, Outbound)| + |RoutesByType(routes, Inbound)| + |RoutesByType(routes, Circular)| == |routes|
    decreases |routes|
  {
    if |routes| > 0 {
      FiltersPartition(routes[1..]);
    }
  }
}
