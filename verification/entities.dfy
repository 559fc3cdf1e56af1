/** The immutable records the builders produce (BusStop, BusRoute, BusLine,
    BusMasterLine, BusCalendar, BusSchedule) and the snapshot that bundles
    them (OasthData). */
module Entities {
  import opened Clock
  import opened RouteTypes

  /** A stop; longitude and latitude are carried as the text of their fields. */
  datatype Stop = Stop(
    internalId: int,
    publicId: string,
    nameEL: string,
    nameEN: string,
    heading: int,
    longitude: string,
    latitude: string)

  /** One directional traversal of an ordered sequence of stops. */
  datatype Route = Route(internalId: int, nameEL: string, nameEN: string, stops: seq<Stop>, routeType: RouteType)

  /** A named set of weekdays. */
  datatype Calendar = Calendar(id: int, nameEL: string, nameEN: string, daysActive: set<DayOfWeek>)
  {
    /** isActiveOn: whether the calendar includes `day`. */
    predicate IsActiveOn(day: DayOfWeek) {
      day in daysActive
    }
  }

  /** The day set of a calendar is private and seen only through isActiveOn,
      which determines it: two calendars are active on the same days exactly
      when their day sets are equal. */
  lemma ActiveDaysDetermine(c1: Calendar, c2: Calendar)
    ensures (forall d :: c1.IsActiveOn(d) <==> c2.IsActiveOn(d)) <==> c1.daysActive == c2.daysActive
  {
    if forall d :: c1.IsActiveOn(d) <==> c2.IsActiveOn(d) {
      assert forall d :: d in c1.daysActive <==> d in c2.daysActive by {
        forall d
          ensures d in c1.daysActive <==> d in c2.daysActive
        {
          assert c1.IsActiveOn(d) <==> c2.IsActiveOn(d);
        }
      }
    }
  }

  /** The departure times of one line under one calendar, per direction. */
  datatype Schedule = Schedule(calendar: Calendar, outboundTimes: seq<Time>, inboundTimes: seq<Time>)

  datatype Line = Line(
    internalId: int,
    number: string,
    nameEL: string,
    nameEN: string,
    routes: seq<Route>,
    schedules: set<Schedule>)

  datatype MasterLine = MasterLine(internalId: int, number: string, nameEL: string, nameEN: string, lines: seq<Line>)

  /** OasthData: every entity, each kind keyed by its internal id. */
  datatype Snapshot = Snapshot(
    masterLines: map<int, MasterLine>,
    lines: map<int, Line>,
    routes: map<int, Route>,
    stops: map<int, Stop>,
    calendars: map<int, Calendar>)
}
