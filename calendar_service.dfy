/** The Google Calendar adapter: building and inserting an event, this
    week's events for the dashboard, and the holiday map of a period. The
    calendar API is not part of the model: each call is replaced by the
    response it returned (an outcome given as a parameter). Times are
    millisecond time values; day numbers count days since 1970-01-01, local
    days taken to be UTC days. */
module CalendarService {
  import opened Common
  import opened Text
  import opened CivilDates

  const MsPerMinute := 60000
  const MsPerDay := 86400000
  /** The largest time value a `Date` holds (ECMAScript TimeClip). */
  const MaxTime := 8_640_000_000_000_000
  const DefaultDuration := 60

  /** `new Date(t)` for a time value `t`: out of range it is an invalid date. */
  function TimeClip(t: int): (r: Option<int>)
    ensures r.Some? <==> -MaxTime <= t <= MaxTime
    ensures r.Some? ==> r.value == t
  {
    if -MaxTime <= t <= MaxTime then Some(t) else None
  }

  // ------------------------------------------------------ createCalendarEvent

  /** The fields of `eventData` the adapter reads; `None` is `undefined`. */
  datatype EventData = EventData(
    title: string, startTime: string, duration: Option<string>,
    description: Option<string>, location: Option<string>)

  /** The `event` resource sent to `events.insert`; times as time values. */
  datatype EventResource = EventResource(
    summary: string, description: string, start: int, end: int, timeZone: string, location: string)

  /** What `events.insert` did. */
  datatype InsertResponse = Inserted(id: string, htmlLink: string) | InsertFailed(error: string)

  /** An error `createCalendarEvent` throws: the invalid start time, the
      `RangeError` of `toISOString` on an end time out of range, or the API's
      own error, rethrown as it came. */
  datatype CreateError = InvalidStartTime(startTime: string) | InvalidEndTime | ApiError(error: string)

  datatype CreateResult = Created(success: bool, eventId: string, eventUrl: string) | Thrown(error: CreateError)

  /** `value || ''` for an optional string. */
  function OrEmpty(v: Option<string>): (r: string)
    ensures v.None? ==> r == ""
    ensures v.Some? ==> r == v.value
  {
    if v.Some? && v.value != "" then v.value else ""
  }

  /** `parseInt(eventData.duration, 10) || 60`. */
  function DurationMinutes(duration: Option<string>): (m: int)
    ensures m != 0
  {
    var parsed := if duration.Some? then ParseInt(duration.value) else None;
    if parsed.Some? && parsed.value != 0 then parsed.value else DefaultDuration
  }

  /** A duration written as a non-zero integer, whatever follows its digits,
      is taken as it is. */
  lemma DurationOfNumber(n: int, rest: string)
    requires n != 0 && (rest == [] || !IsDigit(rest[0]))
    ensures DurationMinutes(Some(IntToString(n) + rest)) == n
  {
    ParseIntOfDecimal(n, rest);
  }

  /** A missing duration, one without digits, or zero minutes give the
      default hour. */
  lemma DurationDefaults(duration: Option<string>)
    requires duration.None? || ParseInt(duration.value).None? || ParseInt(duration.value) == Some(0)
    ensures DurationMinutes(duration) == DefaultDuration
  {
  }

  /** The resource built from `eventData` and the parsed start time
      (`new Date(eventData.startTime).getTime()`, `None` for NaN), or the
      error thrown before the insert. */
  function PrepareEvent(data: EventData, parsedStart: Option<int>, timeZone: string): (r: Result<EventResource, CreateError>)
    ensures parsedStart.None? ==> r == Failure(InvalidStartTime(data.startTime))
    ensures r.Success? ==> parsedStart == Some(r.value.start)
    ensures r.Success? ==> r.value.end - r.value.start == DurationMinutes(data.duration) * MsPerMinute
    ensures r.Success? ==> r.value.end != r.value.start
    ensures r.Success? ==> r.value.description == OrEmpty(data.description) && r.value.location == OrEmpty(data.location)
    ensures r.Success? ==> r.value.summary == data.title && r.value.timeZone == timeZone
    ensures parsedStart.Some? && r.Failure? ==> r.error == InvalidEndTime
  {
    if parsedStart.None? then Failure(InvalidStartTime(data.startTime))
    else
      var start := parsedStart.value;
      var end := TimeClip(start + DurationMinutes(data.duration) * MsPerMinute);
      if end.None? then Failure(InvalidEndTime)
      else Success(EventResource(data.title, OrEmpty(data.description), start, end.value, timeZone,
                                 OrEmpty(data.location)))
  }

  /** `createCalendarEvent(eventData)`, given what `events.insert` returns. */
  function CreateCalendarEvent(data: EventData, parsedStart: Option<int>, timeZone: string, response: InsertResponse): (r: CreateResult)
    ensures parsedStart.None? ==> r == Thrown(InvalidStartTime(data.startTime))
    ensures r.Created? <==> PrepareEvent(data, parsedStart, timeZone).Success? && response.Inserted?
    ensures r.Created? ==> r.success && r.eventId == response.id && r.eventUrl == response.htmlLink
    ensures PrepareEvent(data, parsedStart, timeZone).Success? && response.InsertFailed? ==> r == Thrown(ApiError(response.error))
    ensures PrepareEvent(data, parsedStart, timeZone).Failure? ==> r == Thrown(PrepareEvent(data, parsedStart, timeZone).error)
  {
    var prepared := PrepareEvent(data, parsedStart, timeZone);
    if prepared.Failure? then Thrown(prepared.error)
    else if response.Inserted? then Created(true, response.id, response.htmlLink)
    else Thrown(ApiError(response.error))
  }

  /** An invalid start time fails the same way whatever the calendar would
      have answered: no insert is made. */
  lemma InvalidStartNoInsert(data: EventData, parsedStart: Option<int>, timeZone: string, a: InsertResponse, b: InsertResponse)
    requires parsedStart.None?
    ensures CreateCalendarEvent(data, parsedStart, timeZone, a) == CreateCalendarEvent(data, parsedStart, timeZone, b)
  {
  }

  /** With a valid start time, the event is sent exactly when its end time
      is a valid time value too. */
  lemma PreparedIffEndInRange(data: EventData, start: int, timeZone: string)
    ensures PrepareEvent(data, Some(start), timeZone).Success?
            <==> -MaxTime <= start + DurationMinutes(data.duration) * MsPerMinute <= MaxTime
  {
  }

  // -------------------------------------------------------- getThisWeekEvents

  /** An item of `events.list`: its summary and `start.dateTime`/`start.date`. */
  datatype CalendarEvent = CalendarEvent(summary: Option<string>, startDateTime: Option<string>, startDate: Option<string>)

  /** What `events.list` did: `items` may be missing. */
  datatype ListResponse = Listed(items: Option<seq<CalendarEvent>>) | ListFailed

  datatype WeekEvents = WeekEvents(todayCount: int, weekCount: int, todayEvents: seq<CalendarEvent>, allEvents: seq<CalendarEvent>)

  /** `startOfWeek` and `endOfWeek` of `getThisWeekEvents` for day `today`:
      Sunday 00:00:00.000 to Saturday 23:59:59.999. */
  function WeekWindow(today: int): (int, int)
  {
    ((today - Weekday(today)) * MsPerDay, (today - Weekday(today) + 7) * MsPerDay - 1)
  }

  /** The window starts on the Sunday of `today`'s week, spans seven whole
      days and holds all of `today`. */
  lemma WeekWindowCoversToday(today: int)
    ensures WeekWindow(today).0 % MsPerDay == 0 && Weekday(WeekWindow(today).0 / MsPerDay) == 0
    ensures WeekWindow(today).1 - WeekWindow(today).0 + 1 == 7 * MsPerDay
    ensures WeekWindow(today).0 <= today * MsPerDay && (today + 1) * MsPerDay - 1 <= WeekWindow(today).1
  {
    var sunday := today - Weekday(today);
    assert WeekWindow(today).0 / MsPerDay == sunday;
    assert today + 4 == 7 * ((today + 4) / 7) + Weekday(today);
    assert (sunday + 4) % 7 == 0;
  }

  /** `event.start.dateTime || event.start.date`. */
  function StartText(e: CalendarEvent): Option<string>
  {
    if e.startDateTime.Some? && e.startDateTime.value != "" then e.startDateTime else e.startDate
  }

  /** Whether `new Date(start).toDateString() === today`, with the date
      comparison given as `onToday` (a missing start is never today). */
  predicate IsTodayEvent(e: CalendarEvent, onToday: string -> bool)
  {
    StartText(e).Some? && onToday(StartText(e).value)
  }

  /** `getThisWeekEvents`, given what `events.list` returned. */
  function ThisWeekEvents(response: ListResponse, onToday: string -> bool): (r: WeekEvents)
    ensures |r.todayEvents| <= 3
    ensures 0 <= r.todayCount <= r.weekCount
    ensures r.weekCount == |r.allEvents|
    ensures response.ListFailed? ==> r == WeekEvents(0, 0, [], [])
    ensures response.Listed? ==> r.allEvents == if response.items.Some? then response.items.value else []
    ensures r.todayCount == |Filter(r.allEvents, (e: CalendarEvent) => IsTodayEvent(e, onToday))|
    ensures r.todayEvents == Filter(r.allEvents, (e: CalendarEvent) => IsTodayEvent(e, onToday))[..Min(3, r.todayCount)]
  {
    if response.ListFailed? then WeekEvents(0, 0, [], [])
    else
      var events := if response.items.Some? then response.items.value else [];
      var todayEvents := Filter(events, (e: CalendarEvent) => IsTodayEvent(e, onToday));
      SliceNonNegative(todayEvents, 0, 3);
      WeekEvents(|todayEvents|, |events|, Slice(todayEvents, 0, 3), events)
  }

  /** Every event listed for today is one of the week's, and is today's. */
  lemma TodayEventsAreToday(response: ListResponse, onToday: string -> bool, i: int)
    requires 0 <= i < |ThisWeekEvents(response, onToday).todayEvents|
    ensures ThisWeekEvents(response, onToday).todayEvents[i] in ThisWeekEvents(response, onToday).allEvents
    ensures IsTodayEvent(ThisWeekEvents(response, onToday).todayEvents[i], onToday)
  {
    var r := ThisWeekEvents(response, onToday);
    var today := Filter(r.allEvents, (e: CalendarEvent) => IsTodayEvent(e, onToday));
    assert r.todayEvents[i] == today[i];
  }

  // ----------------------------------------------------- getHolidaysForPeriod

  /** `event.start.date` when it is a non-empty string. */
  function HolidayDate(e: CalendarEvent): Option<string>
  {
    if e.startDate.Some? && e.startDate.value != "" then e.startDate else None
  }

  /** The `holidays.set(date, summary)` calls, in order. */
  function HolidayEntries(items: seq<CalendarEvent>): (r: seq<(string, Option<string>)>)
    ensures |r| <= |items|
    ensures forall k :: 0 <= k < |r| ==> r[k].0 != ""
  {
    if items == [] then []
    else
      var last := items[|items| - 1];
      HolidayEntries(items[..|items| - 1])
      + (if HolidayDate(last).Some? then [(HolidayDate(last).value, last.summary)] else [])
  }

  /** The map `getHolidaysForPeriod` returns: empty when the list failed or
      had no items. */
  function HolidayMap(response: ListResponse): (m: map<string, Option<string>>)
    ensures response.ListFailed? || response.items.None? ==> m == map[]
  {
    if response.Listed? && response.items.Some? then MapFromEntries(HolidayEntries(response.items.value)) else map[]
  }

  /** The map after the items up to the last one, then the last item. */
  lemma HolidayMapStep(items: seq<CalendarEvent>)
    requires items != []
    ensures MapFromEntries(HolidayEntries(items))
            == var m := MapFromEntries(HolidayEntries(items[..|items| - 1]));
               var last := items[|items| - 1];
               if HolidayDate(last).Some? then m[HolidayDate(last).value := last.summary] else m
  {
    var last := items[|items| - 1];
    if HolidayDate(last).Some? {
      MapFromEntriesSnoc(HolidayEntries(items[..|items| - 1]), (HolidayDate(last).value, last.summary));
    } else {
      assert HolidayEntries(items) == HolidayEntries(items[..|items| - 1]);
    }
  }

  /** `getHolidaysForPeriod`: the `forEach` that fills the map. */
  method HolidaysForPeriod(response: ListResponse) returns (holidays: map<string, Option<string>>)
    ensures holidays == HolidayMap(response)
  {
    holidays := map[];
    if response.Listed? && response.items.Some? {
      var items := response.items.value;
      for i := 0 to |items|
        invariant holidays == MapFromEntries(HolidayEntries(items[..i]))
      {
        assert items[..i + 1][..i] == items[..i];
        HolidayMapStep(items[..i + 1]);
        var holidayDate := items[i].startDate;
        if holidayDate.Some? && holidayDate.value != "" {
          holidays := holidays[holidayDate.value := items[i].summary];
        }
      }
      assert items[..|items|] == items;
    }
  }

  /** The map's keys are exactly the non-empty `start.date` values. */
  lemma {:induction false} HolidayKeys(items: seq<CalendarEvent>, d: string)
    ensures d in MapFromEntries(HolidayEntries(items)) <==> exists i :: 0 <= i < |items| && HolidayDate(items[i]) == Some(d)
  {
    if items != [] {
      var prefix := items[..|items| - 1];
      HolidayKeys(prefix, d);
      HolidayMapStep(items);
      if exists i :: 0 <= i < |items| && HolidayDate(items[i]) == Some(d) {
        var i :| 0 <= i < |items| && HolidayDate(items[i]) == Some(d);
        if i < |items| - 1 {
          assert prefix[i] == items[i];
        }
      }
      if exists i :: 0 <= i < |prefix| && HolidayDate(prefix[i]) == Some(d) {
        var i :| 0 <= i < |prefix| && HolidayDate(prefix[i]) == Some(d);
        assert items[i] == prefix[i];
      }
    }
  }

  /** A date holds the summary of the last item on it: a later duplicate
      overwrites an earlier one. */
  lemma {:induction false} HolidayLastWins(items: seq<CalendarEvent>, i: int)
    requires 0 <= i < |items| && HolidayDate(items[i]).Some?
    requires forall j :: i < j < |items| ==> HolidayDate(items[j]) != HolidayDate(items[i])
    ensures Get(MapFromEntries(HolidayEntries(items)), HolidayDate(items[i]).value) == Some(items[i].summary)
  {
    HolidayMapStep(items);
    if i < |items| - 1 {
      var prefix := items[..|items| - 1];
      assert prefix[i] == items[i];
      HolidayLastWins(prefix, i);
    }
  }
}
