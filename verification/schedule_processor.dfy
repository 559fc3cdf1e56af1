/** ScheduleProcessor: calendars from calendar entries (with their seven-day
    bit strings), and each line's schedules from schedule entries. */
module ScheduleProcessor {
  import opened Results
  import opened Text
  import opened Numbers
  import opened Clock
  import opened Records
  import opened Collections
  import opened Entities

  // ------------------------------------------------------------- days

  /** The position of a day in a days-active bit string: Sunday first, then
      Monday to Saturday. */
  function BitIndex(d: DayOfWeek): (i: nat)
    ensures i < 7
    ensures i == 0 <==> d == Sunday
    ensures d != Sunday ==> i == DayValue(d)
  {
    if d == Sunday then 0 else DayValue(d)
  }

  /** The day a bit position stands for: position 0 is DayOfWeek.of(7), any
      other position p is DayOfWeek.of(p). */
  function DayAtBit(i: int): (d: DayOfWeek)
    requires 0 <= i < 7
    ensures BitIndex(d) == i
  {
    DayOf(if i == 0 then 7 else i)
  }

  lemma DayAtBitIndex(d: DayOfWeek)
    ensures DayAtBit(BitIndex(d)) == d
  {
    DayOfValue(d);
  }

  /** extractDaysFromBitString: exactly seven characters, and a day is active
      when its character is anything but '0'. */
  function ExtractDaysFromBitString(s: string): (r: Result<set<DayOfWeek>>)
    ensures r.Err? <==> |s| != 7
    ensures r.Err? ==> r.error == InvalidDaysLength(|s|)
    ensures r.Ok? ==> forall d :: d in r.value <==> s[BitIndex(d)] != '0'
  {
    if |s| != 7 then Err(InvalidDaysLength(|s|))
    else
      var days := set i | 0 <= i < 7 && s[i] != '0' :: DayAtBit(i);
      assert forall d :: d in days <==> s[BitIndex(d)] != '0' by {
        forall d
          ensures d in days <==> s[BitIndex(d)] != '0'
        {
          DayAtBitIndex(d);
        }
      }
      Ok(days)
  }

  /** "0111110" is Monday to Friday. */
  lemma WeekdaysBitString()
    ensures ExtractDaysFromBitString("0111110") == Ok({Monday, Tuesday, Wednesday, Thursday, Friday})
  {
    var r := ExtractDaysFromBitString("0111110");
    var week := {Monday, Tuesday, Wednesday, Thursday, Friday};
    forall d
      ensures d in r.value <==> d in week
    {
      match d
      case Sunday => assert "0111110"[0] == '0';
      case Saturday => assert "0111110"[6] == '0';
      case _ =>
    }
    assert r.value == week;
  }

  /** "1000000" is Sunday alone: the leftmost character stands for Sunday. */
  lemma SundayBitString()
    ensures ExtractDaysFromBitString("1000000") == Ok({Sunday})
  {
    var r := ExtractDaysFromBitString("1000000");
    forall d
      ensures d in r.value <==> d == Sunday
    {
      assert "1000000"[BitIndex(d)] != '0' <==> BitIndex(d) == 0;
    }
    assert r.value == {Sunday};
  }

  /** "0000000" is no day at all. */
  lemma NoDaysBitString()
    ensures ExtractDaysFromBitString("0000000") == Ok({})
  {
    var r := ExtractDaysFromBitString("0000000");
    forall d
      ensures d !in r.value
    {
      assert "0000000"[BitIndex(d)] == '0';
    }
    assert r.value == {};
  }

  // -------------------------------------------------------- calendars

  /** One calendar entry: id (field 0), names (1, 2), days-active bit string (3). */
  function DecodeCalendar(entry: string): (r: Result<Calendar>)
    ensures r.Ok? <==> var v := Fields(entry); |v| >= 4 && ToInt(v[0]).Ok? && |v[3]| == 7
    ensures r.Ok? ==> var v := Fields(entry);
      && ToInt(v[0]) == Ok(r.value.id)
      && r.value.nameEL == v[1]
      && r.value.nameEN == v[2]
      && forall d :: r.value.IsActiveOn(d) <==> v[3][BitIndex(d)] != '0'
  {
    var v := Fields(entry);
    var id :- IntField(v, 0);
    var nameEL :- Field(v, 1);
    var nameEN :- Field(v, 2);
    var bits :- Field(v, 3);
    var days :- ExtractDaysFromBitString(bits);
    Ok(Calendar(id, nameEL, nameEN, days))
  }

  function CalendarKey(c: Calendar): int {
    c.id
  }

  /** createCalendars: every entry decoded, in order, each calendar stored under
      its id; a later entry with the same id replaces an earlier one. */
  function CreateCalendars(entries: seq<string>): (r: Result<map<int, Calendar>>)
    ensures r.Ok? <==> forall i :: 0 <= i < |entries| ==> DecodeCalendar(entries[i]).Ok?
    ensures r.Ok? ==> forall k :: k in r.value <==>
      exists i :: 0 <= i < |entries| && DecodeCalendar(entries[i]).value.id == k
    ensures r.Ok? ==> forall k :: k in r.value ==> r.value[k].id == k
    ensures r.Ok? ==> forall i :: 0 <= i < |entries| && LastDecoded(entries, DecodeCalendar, CalendarKey, i) ==>
      r.value[DecodeCalendar(entries[i]).value.id] == DecodeCalendar(entries[i]).value
  {
    BuildIndex(entries, DecodeCalendar, CalendarKey)
  }

  /** The text of a calendar entry: id, names, days, months. */
  function EncodeCalendar(id: int, nameEL: string, nameEN: string, days: string, months: string): string {
    Join([IntToString(id), nameEL, nameEN, days, months], ",")
  }

  /** A calendar read back from its entry is active on exactly the days whose
      bit is not '0'. */
  lemma CalendarActiveDays(id: int, nameEL: string, nameEN: string, days: string, months: string)
    requires IsInt32(id) && |days| == 7
    requires ',' !in nameEL && ',' !in nameEN && ',' !in days && ',' !in months
    ensures var r := DecodeCalendar(EncodeCalendar(id, nameEL, nameEN, days, months));
      && r.Ok? && r.value.id == id && r.value.nameEL == nameEL && r.value.nameEN == nameEN
      && forall d :: r.value.IsActiveOn(d) <==> days[BitIndex(d)] != '0'
  {
    var v := [IntToString(id), nameEL, nameEN, days, months];
    IntTextIsField(id);
    FieldsOfJoin(v);
    assert Fields(EncodeCalendar(id, nameEL, nameEN, days, months)) == v;
    IntRoundTrip(id);
  }

  // ------------------------------------------------- schedule entries

  /** One departure: the line it belongs to and its time. */
  datatype Departure = Departure(lineId: int, time: Time)

  /** One schedule entry: its calendar and up to two departures, an outbound
      one (line in field 4, time in field 6) and an inbound one (line in
      field 8, time in field 10). */
  datatype ScheduleEntry = ScheduleEntry(calendarId: int, outbound: Option<Departure>, inbound: Option<Departure>)

  /** The text that marks a missing departure. */
  const NullTime: string := "null"

  /** LocalTime.parse, failing with the text it could not read. */
  function ParseTimeField(text: string): (r: Result<Time>)
    ensures r.Ok? <==> ParseTime(text).Some?
    ensures r.Ok? ==> ParseTime(text) == Some(r.value)
    ensures r.Err? ==> r.error == TimeFormat(text)
  {
    OrFail(ParseTime(text), TimeFormat(text))
  }

  /** One direction of an entry: nothing when the time field is "null",
      otherwise the line id is read before the time is parsed. */
  function DecodeDeparture(v: seq<string>, lineField: nat, timeField: nat): (r: Result<Option<Departure>>)
    ensures r.Ok? <==> (timeField < |v| &&
                        (v[timeField] == NullTime || (lineField < |v| && ToInt(v[lineField]).Ok? && ParseTime(v[timeField]).Some?)))
    ensures r.Ok? ==> (r.value.None? <==> v[timeField] == NullTime)
    ensures r.Ok? && r.value.Some? ==>
      ToInt(v[lineField]) == Ok(r.value.value.lineId) && ParseTime(v[timeField]) == Some(r.value.value.time)
    ensures timeField >= |v| ==> r == Err(IndexOutOfBounds(timeField, |v|))
    ensures (timeField < |v| && v[timeField] != NullTime && lineField < |v| && ToInt(v[lineField]).Ok? &&
             ParseTime(v[timeField]).None?) ==> r == Err(TimeFormat(v[timeField]))
    ensures r.Err? ==> r.error.IndexOutOfBounds? || r.error.NumberFormat? || r.error.TimeFormat?
  {
    var text :- Field(v, timeField);
    if text == NullTime then Ok(None)
    else
      var lineId :- IntField(v, lineField);
      var time :- ParseTimeField(text);
      Ok(Some(Departure(lineId, time)))
  }

  /** One schedule entry: the calendar id (field 1) is read first, even when
      both departures are "null". */
  function DecodeScheduleEntry(entry: string): (r: Result<ScheduleEntry>)
    ensures r.Ok? <==> var v := Fields(entry);
      |v| >= 2 && ToInt(v[1]).Ok? && DecodeDeparture(v, 4, 6).Ok? && DecodeDeparture(v, 8, 10).Ok?
    ensures r.Ok? ==> var v := Fields(entry);
      && ToInt(v[1]) == Ok(r.value.calendarId)
      && |v| >= 11
      && (r.value.outbound.None? <==> v[6] == NullTime)
      && (r.value.inbound.None? <==> v[10] == NullTime)
    ensures r.Err? ==> r.error.IndexOutOfBounds? || r.error.NumberFormat? || r.error.TimeFormat?
  {
    var v := Fields(entry);
    var calendarId :- IntField(v, 1);
    var outbound :- DecodeDeparture(v, 4, 6);
    var inbound :- DecodeDeparture(v, 8, 10);
    Ok(ScheduleEntry(calendarId, outbound, inbound))
  }

  /** The departure of an entry in one direction. */
  function Leg(e: ScheduleEntry, outbound: bool): Option<Departure> {
    if outbound then e.outbound else e.inbound
  }

  predicate Departs(d: Option<Departure>, lineId: int) {
    d.Some? && d.value.lineId == lineId
  }

  /** The entry adds a time to the line in some direction. */
  predicate Contributes(e: ScheduleEntry, lineId: int) {
    Departs(e.outbound, lineId) || Departs(e.inbound, lineId)
  }

  /** The entry adds a time to some line, so its calendar is looked up. */
  predicate Active(e: ScheduleEntry) {
    e.outbound.Some? || e.inbound.Some?
  }

  /** Reference: the times the entries give a line under a calendar in one
      direction, in entry order, repeats kept. */
  function DirectionTimes(es: seq<ScheduleEntry>, lineId: int, calendarId: int, outbound: bool): (r: seq<Time>)
    ensures forall t :: t in r <==>
      exists i :: 0 <= i < |es| && es[i].calendarId == calendarId && Leg(es[i], outbound) == Some(Departure(lineId, t))
    decreases |es|
  {
    if |es| == 0 then []
    else
      var init, e := es[..|es| - 1], es[|es| - 1];
      var prior := DirectionTimes(init, lineId, calendarId, outbound);
      var own := if e.calendarId == calendarId && Departs(Leg(e, outbound), lineId) then [Leg(e, outbound).value.time] else [];
      assert forall i :: 0 <= i < |init| ==> init[i] == es[i];
      prior + own
  }

  // ------------------------------------------------ departure times

  /** The times gathered so far for one line and calendar, per direction. */
  datatype Times = Times(outbound: seq<Time>, inbound: seq<Time>)

  function TimesIn(t: Times, outbound: bool): seq<Time> {
    if outbound then t.outbound else t.inbound
  }

  /** Line id to calendar id to times, as extractDepartureTimes builds it. */
  type LineTimes = map<int, map<int, Times>>

  /** The times stored for a line and calendar, none when there is no slot. */
  function Lookup(m: LineTimes, lineId: int, calendarId: int): Times {
    if lineId in m && calendarId in m[lineId] then m[lineId][calendarId] else Times([], [])
  }

  /** getOrPut the line's map, getOrPut the calendar's slot, add the time. */
  function AddTime(m: LineTimes, lineId: int, calendarId: int, t: Time, outbound: bool): LineTimes {
    var calendars := if lineId in m then m[lineId] else map[];
    var times := Lookup(m, lineId, calendarId);
    var times' := if outbound then Times(times.outbound + [t], times.inbound) else Times(times.outbound, times.inbound + [t]);
    m[lineId := calendars[calendarId := times']]
  }

  /** One direction of an entry, skipped when it is "null". */
  function AddLeg(m: LineTimes, e: ScheduleEntry, outbound: bool): LineTimes {
    var d := Leg(e, outbound);
    if d.Some? then AddTime(m, d.value.lineId, e.calendarId, d.value.time, outbound) else m
  }

  /** One entry: the outbound departure first, then the inbound one. */
  function AddEntry(m: LineTimes, e: ScheduleEntry): LineTimes {
    AddLeg(AddLeg(m, e, true), e, false)
  }

  /** `m` holds exactly what the entries give: a line when some entry adds to
      it, a calendar under the line when some entry of that calendar adds to
      it, and in every slot the reference times. */
  ghost predicate Describes(m: LineTimes, es: seq<ScheduleEntry>) {
    LinesDescribed(m, es) && CalendarsDescribed(m, es) && TimesDescribed(m, es)
  }

  ghost predicate LinesDescribed(m: LineTimes, es: seq<ScheduleEntry>) {
    forall lineId :: lineId in m <==> exists i :: 0 <= i < |es| && Contributes(es[i], lineId)
  }

  ghost predicate CalendarsDescribed(m: LineTimes, es: seq<ScheduleEntry>) {
    forall lineId, calendarId :: lineId in m ==>
      (calendarId in m[lineId] <==> exists i :: 0 <= i < |es| && Contributes(es[i], lineId) && es[i].calendarId == calendarId)
  }

  ghost predicate TimesDescribed(m: LineTimes, es: seq<ScheduleEntry>) {
    forall lineId, calendarId, outbound: bool ::
      TimesIn(Lookup(m, lineId, calendarId), outbound) == DirectionTimes(es, lineId, calendarId, outbound)
  }

  /** What adding one direction of an entry does to the map. */
  lemma AddLegEffect(m: LineTimes, e: ScheduleEntry, outbound: bool)
    ensures var r := AddLeg(m, e, outbound);
      && (forall lineId :: lineId in r <==> lineId in m || Departs(Leg(e, outbound), lineId))
      && (forall lineId, calendarId :: lineId in r ==>
            (calendarId in r[lineId] <==>
               ((lineId in m && calendarId in m[lineId]) || (Departs(Leg(e, outbound), lineId) && e.calendarId == calendarId))))
      && (forall lineId, calendarId, direction: bool ::
            TimesIn(Lookup(r, lineId, calendarId), direction) ==
              TimesIn(Lookup(m, lineId, calendarId), direction) +
              (if direction == outbound && e.calendarId == calendarId && Departs(Leg(e, outbound), lineId)
               then [Leg(e, outbound).value.time] else []))
  {
  }

  /** Adding the next entry keeps the description up to date. */
  lemma AddEntryStep(m: LineTimes, es: seq<ScheduleEntry>)
    requires |es| > 0
    requires Describes(m, es[..|es| - 1])
    ensures Describes(AddEntry(m, es[|es| - 1]), es)
  {
    var e := es[|es| - 1];
    AddLegEffect(m, e, true);
    AddLegEffect(AddLeg(m, e, true), e, false);
    LinesStep(m, es);
    CalendarsStep(m, es);
    TimesStep(m, es);
  }

  lemma LinesStep(m: LineTimes, es: seq<ScheduleEntry>)
    requires |es| > 0
    requires LinesDescribed(m, es[..|es| - 1])
    requires forall lineId :: lineId in AddEntry(m, es[|es| - 1]) <==> lineId in m || Contributes(es[|es| - 1], lineId)
    ensures LinesDescribed(AddEntry(m, es[|es| - 1]), es)
  {
    var init, e := es[..|es| - 1], es[|es| - 1];
    var m2 := AddEntry(m, e);
    forall lineId
      ensures lineId in m2 <==> exists i :: 0 <= i < |es| && Contributes(es[i], lineId)
    {
      if lineId in m2 && !Contributes(e, lineId) {
        var i :| 0 <= i < |init| && Contributes(init[i], lineId);
        assert es[i] == init[i];
      }
      if exists i :: 0 <= i < |es| && Contributes(es[i], lineId) {
        var i :| 0 <= i < |es| && Contributes(es[i], lineId);
        if i < |init| {
          assert es[i] == init[i];
        }
      }
    }
  }

  lemma CalendarsStep(m: LineTimes, es: seq<ScheduleEntry>)
    requires |es| > 0
    requires LinesDescribed(m, es[..|es| - 1]) && CalendarsDescribed(m, es[..|es| - 1])
    requires var e, m2 := es[|es| - 1], AddEntry(m, es[|es| - 1]);
      forall lineId, calendarId :: lineId in m2 ==>
        (calendarId in m2[lineId] <==> ((lineId in m && calendarId in m[lineId]) || (Contributes(e, lineId) && e.calendarId == calendarId)))
    ensures CalendarsDescribed(AddEntry(m, es[|es| - 1]), es)
  {
    var init, e := es[..|es| - 1], es[|es| - 1];
    var m2 := AddEntry(m, e);
    forall lineId, calendarId | lineId in m2
      ensures calendarId in m2[lineId] <==>
        exists i :: 0 <= i < |es| && Contributes(es[i], lineId) && es[i].calendarId == calendarId
    {
      if calendarId in m2[lineId] && !(Contributes(e, lineId) && e.calendarId == calendarId) {
        var i :| 0 <= i < |init| && Contributes(init[i], lineId) && init[i].calendarId == calendarId;
        assert es[i] == init[i];
      }
      if exists i :: 0 <= i < |es| && Contributes(es[i], lineId) && es[i].calendarId == calendarId {
        var i :| 0 <= i < |es| && Contributes(es[i], lineId) && es[i].calendarId == calendarId;
        if i < |init| {
          assert es[i] == init[i];
          assert lineId in m;
        }
      }
    }
  }

  lemma TimesStep(m: LineTimes, es: seq<ScheduleEntry>)
    requires |es| > 0
    requires TimesDescribed(m, es[..|es| - 1])
    requires var e, m1 := es[|es| - 1], AddLeg(m, es[|es| - 1], true);
      && (forall lineId, calendarId, direction: bool ::
            TimesIn(Lookup(m1, lineId, calendarId), direction) ==
              TimesIn(Lookup(m, lineId, calendarId), direction) +
              (if direction && e.calendarId == calendarId && Departs(Leg(e, true), lineId) then [Leg(e, true).value.time] else []))
      && (forall lineId, calendarId, direction: bool ::
            TimesIn(Lookup(AddLeg(m1, e, false), lineId, calendarId), direction) ==
              TimesIn(Lookup(m1, lineId, calendarId), direction) +
              (if !direction && e.calendarId == calendarId && Departs(Leg(e, false), lineId) then [Leg(e, false).value.time] else []))
    ensures TimesDescribed(AddEntry(m, es[|es| - 1]), es)
  {
    var e := es[|es| - 1];
    forall lineId, calendarId, direction: bool
      ensures TimesIn(Lookup(AddEntry(m, e), lineId, calendarId), direction) == DirectionTimes(es, lineId, calendarId, direction)
    {
      if direction {
        assert TimesIn(Lookup(AddEntry(m, e), lineId, calendarId), direction)
          == TimesIn(Lookup(AddLeg(m, e, true), lineId, calendarId), direction) + [];
      }
    }
  }

  /** extractDepartureTimes: the entries folded into the map in order. */
  function ExtractDepartureTimes(es: seq<ScheduleEntry>): (m: LineTimes)
    ensures Describes(m, es)
    decreases |es|
  {
    if |es| == 0 then map[]
    else
      var prior := ExtractDepartureTimes(es[..|es| - 1]);
      AddEntryStep(prior, es);
      AddEntry(prior, es[|es| - 1])
  }

  // ------------------------------------------------------- schedules

  /** `toList().sorted()` of a time set: ascending, each time once. */
  function SortedTimes(ts: seq<Time>): (r: seq<Time>)
    ensures StrictlyAscending(r)
    ensures forall t :: t in r <==> t in ts
  {
    var r := SortedDistinct(ts);
    assert forall i :: 0 <= i < |r| ==> r[i] in ts;
    r
  }

  /** The schedule a line gets under one calendar. */
  function ScheduleOf(es: seq<ScheduleEntry>, calendars: map<int, Calendar>, lineId: int, calendarId: int): (s: Schedule)
    requires calendarId in calendars
    ensures s.calendar == calendars[calendarId]
    ensures StrictlyAscending(s.outboundTimes) && StrictlyAscending(s.inboundTimes)
    ensures forall t :: t in s.outboundTimes <==>
      exists i :: 0 <= i < |es| && es[i].calendarId == calendarId && es[i].outbound == Some(Departure(lineId, t))
    ensures forall t :: t in s.inboundTimes <==>
      exists i :: 0 <= i < |es| && es[i].calendarId == calendarId && es[i].inbound == Some(Departure(lineId, t))
  {
    Schedule(calendars[calendarId],
             SortedTimes(DirectionTimes(es, lineId, calendarId, true)),
             SortedTimes(DirectionTimes(es, lineId, calendarId, false)))
  }

  /** The first entry, in entry order, that adds a time under a calendar the
      map does not hold. */
  function FirstMissingCalendar(es: seq<ScheduleEntry>, calendars: map<int, Calendar>): (r: Option<int>)
    ensures r.None? <==> forall i :: 0 <= i < |es| && Active(es[i]) ==> es[i].calendarId in calendars
    ensures r.Some? ==> r.value !in calendars && exists i :: 0 <= i < |es| && Active(es[i]) && es[i].calendarId == r.value
  {
    if |es| == 0 then None
    else if Active(es[0]) && es[0].calendarId !in calendars then Some(es[0].calendarId)
    else
      var rest := FirstMissingCalendar(es[1..], calendars);
      assert forall i :: 1 <= i < |es| ==> es[i] == es[1..][i - 1];
      rest
  }

  /** The second half of createSchedules: a set of schedules per line, one per
      calendar the line has times under. */
  function BuildSchedules(m: LineTimes, calendars: map<int, Calendar>): map<int, set<Schedule>>
    requires forall lineId, calendarId :: lineId in m && calendarId in m[lineId] ==> calendarId in calendars
  {
    map lineId | lineId in m ::
      set calendarId | calendarId in m[lineId] ::
        Schedule(calendars[calendarId],
                 SortedTimes(m[lineId][calendarId].outbound),
                 SortedTimes(m[lineId][calendarId].inbound))
  }

  /** A line's schedule under a calendar some entry of the line uses. */
  ghost predicate IsScheduleOf(es: seq<ScheduleEntry>, calendars: map<int, Calendar>, lineId: int, s: Schedule) {
    exists i :: 0 <= i < |es| && Contributes(es[i], lineId) && es[i].calendarId in calendars &&
      s == ScheduleOf(es, calendars, lineId, es[i].calendarId)
  }

  /** createSchedules on decoded entries: fails on the first entry whose
      calendar is missing, otherwise gives each line that some entry adds a
      time to exactly one schedule per calendar it has times under. */
  function SchedulesOf(es: seq<ScheduleEntry>, calendars: map<int, Calendar>): (r: Result<map<int, set<Schedule>>>)
    ensures r.Ok? <==> forall i :: 0 <= i < |es| && Active(es[i]) ==> es[i].calendarId in calendars
    ensures r.Err? ==> (r.error.MissingCalendar? && r.error.calendarId !in calendars &&
                        exists i :: 0 <= i < |es| && Active(es[i]) && es[i].calendarId == r.error.calendarId)
    ensures r.Ok? ==> forall lineId :: lineId in r.value <==> exists i :: 0 <= i < |es| && Contributes(es[i], lineId)
    ensures r.Ok? ==> forall lineId, s :: lineId in r.value && s in r.value[lineId] ==> IsScheduleOf(es, calendars, lineId, s)
    ensures r.Ok? ==> forall i, lineId :: 0 <= i < |es| && Contributes(es[i], lineId) ==>
      ScheduleOf(es, calendars, lineId, es[i].calendarId) in r.value[lineId]
  {
    var missing := FirstMissingCalendar(es, calendars);
    if missing.Some? then Err(MissingCalendar(missing.value))
    else
      var m := ExtractDepartureTimes(es);
      SlotsHaveCalendars(m, es, calendars);
      var r := BuildSchedules(m, calendars);
      BuiltSchedules(m, es, calendars);
      Ok(r)
  }

  /** Every calendar the map holds times under is known when no active entry
      misses its calendar. */
  lemma SlotsHaveCalendars(m: LineTimes, es: seq<ScheduleEntry>, calendars: map<int, Calendar>)
    requires Describes(m, es)
    requires forall i :: 0 <= i < |es| && Active(es[i]) ==> es[i].calendarId in calendars
    ensures forall lineId, calendarId :: lineId in m && calendarId in m[lineId] ==> calendarId in calendars
  {
    forall lineId, calendarId | lineId in m && calendarId in m[lineId]
      ensures calendarId in calendars
    {
      var i :| 0 <= i < |es| && Contributes(es[i], lineId) && es[i].calendarId == calendarId;
    }
  }

  /** The slot of a line and calendar gives the reference schedule. */
  lemma SlotSchedule(m: LineTimes, es: seq<ScheduleEntry>, calendars: map<int, Calendar>, lineId: int, calendarId: int)
    requires Describes(m, es)
    requires lineId in m && calendarId in m[lineId] && calendarId in calendars
    ensures Schedule(calendars[calendarId], SortedTimes(m[lineId][calendarId].outbound), SortedTimes(m[lineId][calendarId].inbound))
      == ScheduleOf(es, calendars, lineId, calendarId)
  {
    assert TimesIn(Lookup(m, lineId, calendarId), true) == DirectionTimes(es, lineId, calendarId, true);
    assert TimesIn(Lookup(m, lineId, calendarId), false) == DirectionTimes(es, lineId, calendarId, false);
  }

  lemma BuiltSchedules(m: LineTimes, es: seq<ScheduleEntry>, calendars: map<int, Calendar>)
    requires Describes(m, es)
    requires forall i :: 0 <= i < |es| && Active(es[i]) ==> es[i].calendarId in calendars
    requires forall lineId, calendarId :: lineId in m && calendarId in m[lineId] ==> calendarId in calendars
    ensures var r := BuildSchedules(m, calendars);
      && (forall lineId :: lineId in r <==> exists i :: 0 <= i < |es| && Contributes(es[i], lineId))
      && (forall lineId, s :: lineId in r && s in r[lineId] ==> IsScheduleOf(es, calendars, lineId, s))
      && (forall i, lineId :: 0 <= i < |es| && Contributes(es[i], lineId) && es[i].calendarId in calendars ==>
            ScheduleOf(es, calendars, lineId, es[i].calendarId) in r[lineId])
  {
    var r := BuildSchedules(m, calendars);
    forall lineId, s | lineId in r && s in r[lineId]
      ensures IsScheduleOf(es, calendars, lineId, s)
    {
      var calendarId :| calendarId in m[lineId] &&
        s == Schedule(calendars[calendarId], SortedTimes(m[lineId][calendarId].outbound), SortedTimes(m[lineId][calendarId].inbound));
      SlotSchedule(m, es, calendars, lineId, calendarId);
      var i :| 0 <= i < |es| && Contributes(es[i], lineId) && es[i].calendarId == calendarId;
    }
    forall i, lineId | 0 <= i < |es| && Contributes(es[i], lineId) && es[i].calendarId in calendars
      ensures ScheduleOf(es, calendars, lineId, es[i].calendarId) in r[lineId]
    {
      var calendarId := es[i].calendarId;
      assert lineId in m;
      assert calendarId in m[lineId];
      SlotSchedule(m, es, calendars, lineId, calendarId);
    }
  }

  /** createSchedules: every entry decoded first, in order; then the
      schedules, which need every calendar an active entry names. */
  function CreateSchedules(entries: seq<string>, calendars: map<int, Calendar>): (r: Result<map<int, set<Schedule>>>)
    ensures r.Ok? ==> forall i :: 0 <= i < |entries| ==> DecodeScheduleEntry(entries[i]).Ok?
    ensures (exists i :: 0 <= i < |entries| && DecodeScheduleEntry(entries[i]).Err?) ==> r.Err? && !r.error.MissingCalendar?
    ensures r.Ok? ==> forall lineId :: lineId in r.value <==>
      exists i :: 0 <= i < |entries| && Contributes(DecodeScheduleEntry(entries[i]).value, lineId)
    ensures r.Ok? ==> forall lineId, s :: lineId in r.value && s in r.value[lineId] ==> s.calendar in calendars.Values
    ensures DecodeScheduleEntries(entries).Ok? ==> r == SchedulesOf(DecodeScheduleEntries(entries).value, calendars)
  {
    var es :- DecodeScheduleEntries(entries);
    ScheduleCalendarsKnown(es, calendars);
    SchedulesOf(es, calendars)
  }

  /** The first half of createSchedules: every entry decoded, in order; the
      first malformed entry's error is the result. */
  function DecodeScheduleEntries(entries: seq<string>): (r: Result<seq<ScheduleEntry>>)
    ensures r.Ok? <==> forall i :: 0 <= i < |entries| ==> DecodeScheduleEntry(entries[i]).Ok?
    ensures r.Ok? ==> |r.value| == |entries| && forall i :: 0 <= i < |entries| ==> r.value[i] == DecodeScheduleEntry(entries[i]).value
    ensures r.Err? ==> r.error.IndexOutOfBounds? || r.error.NumberFormat? || r.error.TimeFormat?
  {
    var r := MapAll(entries, DecodeScheduleEntry);
    assert r.Err? ==> r.error.IndexOutOfBounds? || r.error.NumberFormat? || r.error.TimeFormat? by {
      if r.Err? {
        var i :| 0 <= i < |entries| && DecodeScheduleEntry(entries[i]) == Err(r.error);
      }
    }
    r
  }

  /** Every schedule's calendar is one of the given calendars. */
  lemma ScheduleCalendarsKnown(es: seq<ScheduleEntry>, calendars: map<int, Calendar>)
    ensures var r := SchedulesOf(es, calendars);
      r.Ok? ==> forall lineId, s :: lineId in r.value && s in r.value[lineId] ==> s.calendar in calendars.Values
  {
    var r := SchedulesOf(es, calendars);
    if r.Ok? {
      forall lineId, s | lineId in r.value && s in r.value[lineId]
        ensures s.calendar in calendars.Values
      {
        assert IsScheduleOf(es, calendars, lineId, s);
        var i :| 0 <= i < |es| && Contributes(es[i], lineId) && es[i].calendarId in calendars &&
                 s == ScheduleOf(es, calendars, lineId, es[i].calendarId);
      }
    }
  }

  /** With calendars keyed by their own ids, a line has one schedule per calendar. */
  lemma OneSchedulePerCalendar(es: seq<ScheduleEntry>, calendars: map<int, Calendar>, lineId: int, s1: Schedule, s2: Schedule)
    requires forall k :: k in calendars ==> calendars[k].id == k
    requires SchedulesOf(es, calendars).Ok?
    requires lineId in SchedulesOf(es, calendars).value
    requires s1 in SchedulesOf(es, calendars).value[lineId] && s2 in SchedulesOf(es, calendars).value[lineId]
    requires s1.calendar.id == s2.calendar.id
    ensures s1 == s2
  {
    var i1 :| 0 <= i1 < |es| && Contributes(es[i1], lineId) && es[i1].calendarId in calendars &&
      s1 == ScheduleOf(es, calendars, lineId, es[i1].calendarId);
    var i2 :| 0 <= i2 < |es| && Contributes(es[i2], lineId) && es[i2].calendarId in calendars &&
      s2 == ScheduleOf(es, calendars, lineId, es[i2].calendarId);
  }

  /** A "null" time drops only its own direction: the other departure of the
      entry still counts. */
  lemma NullSkipsOneDirection(es: seq<ScheduleEntry>, calendars: map<int, Calendar>, i: int)
    requires 0 <= i < |es| && es[i].outbound.None? && es[i].inbound.Some?
    requires SchedulesOf(es, calendars).Ok?
    ensures var d := es[i].inbound.value;
      d.lineId in SchedulesOf(es, calendars).value &&
      d.time in ScheduleOf(es, calendars, d.lineId, es[i].calendarId).inboundTimes
  {
    var d := es[i].inbound.value;
    var r := SchedulesOf(es, calendars);
    assert Contributes(es[i], d.lineId);
    assert d.lineId in r.value;
    assert Active(es[i]);
    LegTimeListed(es, i, false);
  }

  /** An entry's departure is among the reference times of its line and calendar. */
  lemma LegTimeListed(es: seq<ScheduleEntry>, i: int, outbound: bool)
    requires 0 <= i < |es| && Leg(es[i], outbound).Some?
    ensures var d := Leg(es[i], outbound).value;
      d.time in DirectionTimes(es, d.lineId, es[i].calendarId, outbound)
  {
    var d := Leg(es[i], outbound).value;
    assert Leg(es[i], outbound) == Some(Departure(d.lineId, d.time));
  }
}
