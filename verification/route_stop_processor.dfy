/** RouteStopProcessor: stops from stop entries, each route's ordered stop ids
    from route-stop entries, and routes from route entries with their stops
    resolved. */
module RouteStopProcessor {
  import opened Results
  import opened Text
  import opened Numbers
  import opened Records
  import opened Collections
  import opened RouteTypes
  import opened Entities

  // ------------------------------------------------------------ stops

  /** One stop entry: id (field 0), public id (1), names (2, 3), heading (6),
      longitude (7), latitude (8); the other fields are not read. */
  function DecodeStop(entry: string): (r: Result<Stop>)
    ensures r.Ok? <==> var v := Fields(entry); |v| >= 9 && ToInt(v[0]).Ok? && ToInt(v[6]).Ok?
    ensures r.Ok? ==> ToInt(Fields(entry)[0]) == Ok(r.value.internalId)
  {
    var v := Fields(entry);
    var internalId :- IntField(v, 0);
    var publicId :- Field(v, 1);
    var nameEL :- Field(v, 2);
    var nameEN :- Field(v, 3);
    var heading :- IntField(v, 6);
    var longitude :- Field(v, 7);
    var latitude :- Field(v, 8);
    Ok(Stop(internalId, publicId, nameEL, nameEN, heading, longitude, latitude))
  }

  function StopKey(s: Stop): int {
    s.internalId
  }

  /** createStops: every entry decoded, in order, each stop stored under its id;
      a later entry with the same id replaces an earlier one. */
  function CreateStops(entries: seq<string>): (r: Result<map<int, Stop>>)
    ensures r.Ok? <==> forall i :: 0 <= i < |entries| ==> DecodeStop(entries[i]).Ok?
    ensures r.Ok? ==> forall k :: k in r.value <==>
      exists i :: 0 <= i < |entries| && DecodeStop(entries[i]).value.internalId == k
    ensures r.Ok? ==> forall k :: k in r.value ==> r.value[k].internalId == k
    ensures r.Ok? ==> forall i :: 0 <= i < |entries| && LastDecoded(entries, DecodeStop, StopKey, i) ==>
      r.value[DecodeStop(entries[i]).value.internalId] == DecodeStop(entries[i]).value
  {
    BuildIndex(entries, DecodeStop, StopKey)
  }

  /** The text of a stop entry: id, public id, names, two unread address fields,
      heading, longitude, latitude. */
  function EncodeStop(s: Stop, addressEL: string, addressEN: string): string {
    Join([IntToString(s.internalId), s.publicId, s.nameEL, s.nameEN, addressEL, addressEN,
          IntToString(s.heading), s.longitude, s.latitude], ",")
  }

  /** A stop survives the trip through its entry text when its texts hold no comma. */
  lemma DecodeStopRoundTrip(s: Stop, addressEL: string, addressEN: string)
    requires IsInt32(s.internalId) && IsInt32(s.heading)
    requires forall t :: t in [s.publicId, s.nameEL, s.nameEN, addressEL, addressEN, s.longitude, s.latitude] ==> ',' !in t
    ensures DecodeStop(EncodeStop(s, addressEL, addressEN)) == Ok(s)
  {
    var v := [IntToString(s.internalId), s.publicId, s.nameEL, s.nameEN, addressEL, addressEN,
              IntToString(s.heading), s.longitude, s.latitude];
    IntTextIsField(s.internalId);
    IntTextIsField(s.heading);
    assert forall i :: 0 <= i < |v| ==> ',' !in v[i] by {
      forall i | 0 <= i < |v|
        ensures ',' !in v[i]
      {
        if i != 0 && i != 6 {
          assert v[i] in [s.publicId, s.nameEL, s.nameEN, addressEL, addressEN, s.longitude, s.latitude];
        }
      }
    }
    FieldsOfJoin(v);
    IntRoundTrip(s.internalId);
    IntRoundTrip(s.heading);
  }

  // ------------------------------------------------- route stop order

  /** One route-stop entry: route id (field 1), stop id (2) and the stop's index on the route (3). */
  datatype RouteStop = RouteStop(routeId: int, stopId: int, index: int)

  function DecodeRouteStop(entry: string): (r: Result<RouteStop>)
    ensures r.Ok? <==> var v := Fields(entry);
      |v| >= 4 && ToInt(v[1]).Ok? && ToInt(v[2]).Ok? && ToInt(v[3]).Ok?
  {
    var v := Fields(entry);
    var routeId :- IntField(v, 1);
    var stopId :- IntField(v, 2);
    var index :- IntField(v, 3);
    Ok(RouteStop(routeId, stopId, index))
  }

  /** The text of a route-stop entry, after its own entry id. */
  function EncodeRouteStop(entryId: int, p: RouteStop): string {
    Join([IntToString(entryId), IntToString(p.routeId), IntToString(p.stopId), IntToString(p.index)], ",")
  }

  lemma DecodeRouteStopRoundTrip(entryId: int, p: RouteStop)
    requires IsInt32(entryId) && IsInt32(p.routeId) && IsInt32(p.stopId) && IsInt32(p.index)
    ensures DecodeRouteStop(EncodeRouteStop(entryId, p)) == Ok(p)
  {
    var v := [IntToString(entryId), IntToString(p.routeId), IntToString(p.stopId), IntToString(p.index)];
    IntTextIsField(entryId);
    IntTextIsField(p.routeId);
    IntTextIsField(p.stopId);
    IntTextIsField(p.index);
    FieldsOfJoin(v);
    IntRoundTrip(p.routeId);
    IntRoundTrip(p.stopId);
    IntRoundTrip(p.index);
  }

  function RouteOf(p: RouteStop): int {
    p.routeId
  }

  function IndexOf(p: RouteStop): int {
    p.index
  }

  /** `map { it.second }`: the stop ids, in order. */
  function StopIdsOf(ps: seq<RouteStop>): (r: seq<int>)
    ensures |r| == |ps|
    ensures forall i :: 0 <= i < |ps| ==> r[i] == ps[i].stopId
  {
    if |ps| == 0 then [] else [ps[0].stopId] + StopIdsOf(ps[1..])
  }

  /** The stop ids of one route: its entries sorted (stably) by stop index. */
  function RouteStopIds(ps: seq<RouteStop>, k: int): (r: seq<int>)
    ensures |r| == |Bucket(ps, RouteOf, k)|
    ensures forall s :: s in r <==> exists i :: 0 <= i < |ps| && ps[i].routeId == k && ps[i].stopId == s
  {
    var sorted := SortBy(Bucket(ps, RouteOf, k), IndexOf);
    assert |sorted| == |Bucket(ps, RouteOf, k)| by {
      assert |multiset(sorted)| == |multiset(Bucket(ps, RouteOf, k))|;
    }
    var r := StopIdsOf(sorted);
    assert forall s :: s in r <==> exists i :: 0 <= i < |ps| && ps[i].routeId == k && ps[i].stopId == s by {
      forall s
        ensures s in r <==> exists i :: 0 <= i < |ps| && ps[i].routeId == k && ps[i].stopId == s
      {
        StopsOfRoute(ps, k, s);
      }
    }
    r
  }

  lemma StopsOfRoute(ps: seq<RouteStop>, k: int, s: int)
    ensures s in StopIdsOf(SortBy(Bucket(ps, RouteOf, k), IndexOf)) <==>
      exists i :: 0 <= i < |ps| && ps[i].routeId == k && ps[i].stopId == s
  {
    var sorted := SortBy(Bucket(ps, RouteOf, k), IndexOf);
    var ids := StopIdsOf(sorted);
    if s in ids {
      var j :| 0 <= j < |ids| && ids[j] == s;
      SortedBucketMembers(ps, RouteOf, k, IndexOf, sorted[j]);
      var i :| 0 <= i < |ps| && ps[i] == sorted[j];
    }
    if exists i :: 0 <= i < |ps| && ps[i].routeId == k && ps[i].stopId == s {
      var i :| 0 <= i < |ps| && ps[i].routeId == k && ps[i].stopId == s;
      SortedBucketMembers(ps, RouteOf, k, IndexOf, ps[i]);
      var j :| 0 <= j < |sorted| && sorted[j] == ps[i];
      assert ids[j] == s;
    }
  }

  /** The second half of getStopIdsForRoutes: the entries grouped by route, each
      group sorted by stop index, reduced to its stop ids. */
  function OrderStops(ps: seq<RouteStop>): (m: map<int, seq<int>>)
    ensures forall k :: k in m <==> exists i :: 0 <= i < |ps| && ps[i].routeId == k
    ensures forall k :: k in m ==> m[k] == RouteStopIds(ps, k)
  {
    var groups := GroupBy(ps, RouteOf);
    map k | k in groups :: StopIdsOf(SortBy(groups[k], IndexOf))
  }

  /** getStopIdsForRoutes: for every route that has an entry, its stop ids. */
  function GetStopIdsForRoutes(entries: seq<string>): (r: Result<map<int, seq<int>>>)
    ensures r.Ok? <==> forall i :: 0 <= i < |entries| ==> DecodeRouteStop(entries[i]).Ok?
    ensures r.Ok? ==> forall k :: k in r.value <==>
      exists i :: 0 <= i < |entries| && DecodeRouteStop(entries[i]).value.routeId == k
    ensures r.Ok? ==> r.value == OrderStops(MapAll(entries, DecodeRouteStop).value)
  {
    var ps :- MapAll(entries, DecodeRouteStop);
    Ok(OrderStops(ps))
  }

  /** The stop ids of a route are those of its entries in order of stop index,
      entries with equal index in entry order: any sequence of the route's
      entries ordered that way gives exactly the route's list. */
  lemma StopOrderCharacterized(ps: seq<RouteStop>, k: int, ordered: seq<RouteStop>)
    requires exists i :: 0 <= i < |ps| && ps[i].routeId == k
    requires SortedBy(ordered, IndexOf)
    requires forall j :: Bucket(ordered, IndexOf, j) == Bucket(Bucket(ps, RouteOf, k), IndexOf, j)
    ensures OrderStops(ps)[k] == StopIdsOf(ordered)
  {
    var sorted := SortBy(Bucket(ps, RouteOf, k), IndexOf);
    SortedBucketsDetermine(ordered, sorted, IndexOf);
  }

  /** Each route's list is ordered by stop index: its stop ids are those of a
      sequence of the route's entries sorted by index. */
  lemma StopsSortedByIndex(ps: seq<RouteStop>, k: int)
    requires exists i :: 0 <= i < |ps| && ps[i].routeId == k
    ensures exists ordered :: (SortedBy(ordered, IndexOf) && multiset(ordered) == multiset(Bucket(ps, RouteOf, k))
                               && OrderStops(ps)[k] == StopIdsOf(ordered))
  {
    var sorted := SortBy(Bucket(ps, RouteOf, k), IndexOf);
    assert OrderStops(ps)[k] == StopIdsOf(sorted);
  }

  /** No two entries of the same route share a stop index. */
  predicate DistinctIndices(ps: seq<RouteStop>) {
    forall i, j :: 0 <= i < j < |ps| && ps[i].routeId == ps[j].routeId ==> ps[i].index != ps[j].index
  }

  /** With distinct indices, a route has at most one entry at any index. */
  lemma {:induction false} OneEntryPerIndex(ps: seq<RouteStop>, k: int, j: int)
    requires DistinctIndices(ps)
    ensures |Bucket(Bucket(ps, RouteOf, k), IndexOf, j)| <= 1
    decreases |ps|
  {
    if |ps| > 0 {
      var rest := ps[1..];
      assert DistinctIndices(rest) by {
        forall a, b | 0 <= a < b < |rest| && rest[a].routeId == rest[b].routeId
          ensures rest[a].index != rest[b].index
        {
          assert rest[a] == ps[a + 1] && rest[b] == ps[b + 1];
        }
      }
      OneEntryPerIndex(rest, k, j);
      var tail := Bucket(rest, RouteOf, k);
      assert ps == [ps[0]] + rest;
      BucketCons(ps[0], rest, RouteOf, k);
      if ps[0].routeId == k {
        assert Bucket(ps, RouteOf, k) == [ps[0]] + tail;
        BucketCons(ps[0], tail, IndexOf, j);
        if ps[0].index == j {
          BucketMembers(rest, RouteOf, k);
          forall a | 0 <= a < |tail|
            ensures IndexOf(tail[a]) != j
          {
            var x := tail[a];
            assert x in tail;
            var b :| 0 <= b < |rest| && rest[b] == x;
            assert ps[b + 1] == x;
          }
          BucketEmpty(tail, IndexOf, j);
          assert Bucket(Bucket(ps, RouteOf, k), IndexOf, j) == [ps[0]];
        } else {
          assert Bucket(Bucket(ps, RouteOf, k), IndexOf, j) == Bucket(tail, IndexOf, j);
        }
      } else {
        assert Bucket(ps, RouteOf, k) == tail;
      }
    }
  }

  /** When stop indices are distinct within each route, the order of the entries does not matter. */
  lemma EntryOrderIrrelevant(ps: seq<RouteStop>, qs: seq<RouteStop>)
    requires multiset(ps) == multiset(qs)
    requires DistinctIndices(ps)
    ensures OrderStops(ps) == OrderStops(qs)
  {
    var mp, mq := OrderStops(ps), OrderStops(qs);
    forall k
      ensures k in mp <==> k in mq
    {
      SameRoutes(ps, qs, k);
    }
    forall k | k in mp
      ensures mp[k] == mq[k]
    {
      SameRouteStopIds(ps, qs, k);
    }
    MapsEqual(mp, mq);
  }

  lemma SameRouteStopIds(ps: seq<RouteStop>, qs: seq<RouteStop>, k: int)
    requires multiset(ps) == multiset(qs)
    requires DistinctIndices(ps)
    ensures RouteStopIds(ps, k) == RouteStopIds(qs, k)
  {
    SameRouteOrder(ps, qs, k);
  }

  /** Two permutations of the entries mention the same routes. */
  lemma SameRoutes(ps: seq<RouteStop>, qs: seq<RouteStop>, k: int)
    requires multiset(ps) == multiset(qs)
    ensures (exists i :: 0 <= i < |ps| && ps[i].routeId == k) <==> (exists j :: 0 <= j < |qs| && qs[j].routeId == k)
  {
    if exists i :: 0 <= i < |ps| && ps[i].routeId == k {
      var i :| 0 <= i < |ps| && ps[i].routeId == k;
      assert ps[i] in multiset(qs);
      var j :| 0 <= j < |qs| && qs[j] == ps[i];
    }
    if exists j :: 0 <= j < |qs| && qs[j].routeId == k {
      var j :| 0 <= j < |qs| && qs[j].routeId == k;
      assert qs[j] in multiset(ps);
      var i :| 0 <= i < |ps| && ps[i] == qs[j];
    }
  }

  lemma SameRouteOrder(ps: seq<RouteStop>, qs: seq<RouteStop>, k: int)
    requires multiset(ps) == multiset(qs)
    requires DistinctIndices(ps)
    ensures SortBy(Bucket(ps, RouteOf, k), IndexOf) == SortBy(Bucket(qs, RouteOf, k), IndexOf)
  {
    var bp, bq := Bucket(ps, RouteOf, k), Bucket(qs, RouteOf, k);
    SameBucketMultisets(ps, qs, RouteOf, k);
    forall j
      ensures Bucket(bp, IndexOf, j) == Bucket(bq, IndexOf, j)
    {
      SameBucketMultisets(bp, bq, IndexOf, j);
      OneEntryPerIndex(ps, k, j);
      AtMostOneDetermined(Bucket(bp, IndexOf, j), Bucket(bq, IndexOf, j));
    }
    SortedBucketsDetermine(SortBy(bp, IndexOf), SortBy(bq, IndexOf), IndexOf);
  }

  // ------------------------------------------------------------ routes

  /** `routeStopIds[routeId] ?: emptyList()`. */
  function StopIdsFor(routeStopIds: map<int, seq<int>>, routeId: int): seq<int> {
    if routeId in routeStopIds then routeStopIds[routeId] else []
  }

  /** Every id looked up in `stops`, in order; the first id that is missing fails. */
  function ResolveStops(ids: seq<int>, stops: map<int, Stop>): (r: Result<seq<Stop>>)
    ensures r.Ok? <==> forall i :: 0 <= i < |ids| ==> ids[i] in stops
    ensures r.Ok? ==> |r.value| == |ids| && forall i :: 0 <= i < |ids| ==> r.value[i] == stops[ids[i]]
    ensures r.Err? ==> r.error.MissingStop? && r.error.stopId in ids && r.error.stopId !in stops
  {
    if |ids| == 0 then Ok([])
    else if ids[0] !in stops then Err(MissingStop(ids[0]))
    else
      var rest := ResolveStops(ids[1..], stops);
      if rest.Err? then
        assert rest.error.stopId in ids by {
          var j :| 0 <= j < |ids[1..]| && ids[1..][j] == rest.error.stopId;
          assert ids[j + 1] == rest.error.stopId;
        }
        rest
      else
        assert forall i :: 1 <= i < |ids| ==> ids[i] == ids[1..][i - 1];
        Ok([stops[ids[0]]] + rest.value)
  }

  /** A route's stops are the stops its id lists in `routeStopIds`, element by element. */
  predicate StopsResolved(route: Route, stops: map<int, Stop>, routeStopIds: map<int, seq<int>>) {
    var ids := StopIdsFor(routeStopIds, route.internalId);
    |route.stops| == |ids| && forall i :: 0 <= i < |ids| ==> ids[i] in stops && route.stops[i] == stops[ids[i]]
  }

  /** One route entry: id (field 0), names (2, 3), type code (4); the stops are
      those listed for the id in `routeStopIds`, none when it has no list. */
  function DecodeRoute(entry: string, stops: map<int, Stop>, routeStopIds: map<int, seq<int>>): (r: Result<Route>)
    ensures r.Ok? <==> var v := Fields(entry);
      |v| >= 5 && ToInt(v[0]).Ok? && ToInt(v[4]).Ok? && 1 <= ToInt(v[4]).value <= 3 &&
      forall s :: s in StopIdsFor(routeStopIds, ToInt(v[0]).value) ==> s in stops
    ensures r.Ok? ==> ToInt(Fields(entry)[0]) == Ok(r.value.internalId) && ToInt(Fields(entry)[4]) == Ok(Id(r.value.routeType))
    ensures r.Ok? ==> StopsResolved(r.value, stops, routeStopIds)
    ensures var v := Fields(entry);
      (|v| >= 5 && ToInt(v[0]).Ok? && ToInt(v[4]).Ok? && !(1 <= ToInt(v[4]).value <= 3)
       ==> r == Err(InvalidRouteType(ToInt(v[4]).value)))
  {
    var v := Fields(entry);
    var routeId :- IntField(v, 0);
    var nameEL :- Field(v, 2);
    var nameEN :- Field(v, 3);
    var code :- IntField(v, 4);
    var routeType :- OrFail(GetById(code), InvalidRouteType(code));
    var matched :- ResolveStops(StopIdsFor(routeStopIds, routeId), stops);
    Ok(Route(routeId, nameEL, nameEN, matched, routeType))
  }

  function RouteKey(r: Route): int {
    r.internalId
  }

  /** createRoutes: every route entry decoded, in order, each route stored under
      its id; a later entry with the same id replaces an earlier one. */
  function CreateRoutes(stops: map<int, Stop>, entries: seq<string>, routeStopIds: map<int, seq<int>>)
    : (r: Result<map<int, Route>>)
    ensures var decode := e => DecodeRoute(e, stops, routeStopIds);
      && (r.Ok? <==> forall i :: 0 <= i < |entries| ==> decode(entries[i]).Ok?)
      && (r.Ok? ==> forall k :: k in r.value <==> exists i :: 0 <= i < |entries| && decode(entries[i]).value.internalId == k)
      && (r.Ok? ==> forall k :: k in r.value ==> r.value[k].internalId == k)
      && (r.Ok? ==> forall i :: 0 <= i < |entries| && LastDecoded(entries, decode, RouteKey, i) ==>
                      r.value[decode(entries[i]).value.internalId] == decode(entries[i]).value)
    ensures r.Ok? ==> forall k :: k in r.value ==> StopsResolved(r.value[k], stops, routeStopIds)
  {
    var decode := e => DecodeRoute(e, stops, routeStopIds);
    var r := BuildIndex(entries, decode, RouteKey);
    assert r.Ok? ==> forall k :: k in r.value ==> StopsResolved(r.value[k], stops, routeStopIds) by {
      if r.Ok? {
        forall k | k in r.value
          ensures StopsResolved(r.value[k], stops, routeStopIds)
        {
          var i :| 0 <= i < |entries| && decode(entries[i]).value == r.value[k];
        }
      }
    }
    r
  }

  /** Every stop of a created route is one of the given stops, and a route
      without a stop list has no stops. */
  lemma RouteStopsAreStops(route: Route, stops: map<int, Stop>, routeStopIds: map<int, seq<int>>)
    requires StopsResolved(route, stops, routeStopIds)
    ensures forall s :: s in route.stops ==> s in stops.Values
    ensures route.internalId !in routeStopIds ==> route.stops == []
  {
    forall s | s in route.stops
      ensures s in stops.Values
    {
      var i :| 0 <= i < |route.stops| && route.stops[i] == s;
      assert StopIdsFor(routeStopIds, route.internalId)[i] in stops;
    }
  }

  /** The text of a route entry: id, line id, names, type code, distance. */
  function EncodeRoute(r: Route, lineId: int, distance: string): string {
    Join([IntToString(r.internalId), IntToString(lineId), r.nameEL, r.nameEN, IntToString(Id(r.routeType)), distance], ",")
  }

  /** A route survives the trip through its entry text, given the stop ids its stops come from. */
  lemma DecodeRouteRoundTrip(r: Route, lineId: int, distance: string, stops: map<int, Stop>, routeStopIds: map<int, seq<int>>)
    requires IsInt32(r.internalId) && IsInt32(lineId)
    requires ',' !in r.nameEL && ',' !in r.nameEN && ',' !in distance
    requires StopsResolved(r, stops, routeStopIds)
    ensures DecodeRoute(EncodeRoute(r, lineId, distance), stops, routeStopIds) == Ok(r)
  {
    var code := Id(r.routeType);
    var v := [IntToString(r.internalId), IntToString(lineId), r.nameEL, r.nameEN, IntToString(code), distance];
    IntTextIsField(r.internalId);
    IntTextIsField(lineId);
    IntTextIsField(code);
    FieldsOfJoin(v);
    assert Fields(EncodeRoute(r, lineId, distance)) == v;
    IntRoundTrip(r.internalId);
    IntRoundTrip(code);
    assert IntField(v, 0) == Ok(r.internalId);
    assert IntField(v, 4) == Ok(code);
    GetByIdRoundTrip(r.routeType);
    ResolveStopsOfResolved(r, stops, routeStopIds);
  }

  lemma ResolveStopsOfResolved(r: Route, stops: map<int, Stop>, routeStopIds: map<int, seq<int>>)
    requires StopsResolved(r, stops, routeStopIds)
    ensures ResolveStops(StopIdsFor(routeStopIds, r.internalId), stops) == Ok(r.stops)
  {
    var ids := StopIdsFor(routeStopIds, r.internalId);
    var res := ResolveStops(ids, stops);
    assert res.Ok?;
    assert forall i :: 0 <= i < |ids| ==> res.value[i] == r.stops[i];
    assert res.value == r.stops;
  }
}
