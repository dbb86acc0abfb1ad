/** The weekly-business page: the list of weeks, the week grid of days by
    themes, the entry editor and the add-week dialog. Markup, styles and the
    requests themselves are outside the model; what is modelled is the page
    state, what goes into each grid cell, what the editor reads and sends, and
    which weeks the dialog offers. Week ids are `WeekIds.WeekId`, the same
    code as `getWeekIdForDate`. */
module WeeklyBusiness {
  import opened Common
  import opened Text
  import opened WeekIds

  /** One entry of a week (`recordId`, day index 1..5 Monday to Friday,
      theme `category`, topic, comma-joined participants, summary, action
      items, sheet row). */
  datatype Entry = Entry(
    recordId: string, day: int, category: string, topic: string,
    participants: string, summary: string, actionItems: string, rowIndex: string)

  /** A theme column of the grid: `value` is matched against entry categories,
      `note` is its heading. */
  datatype Theme = Theme(value: string, note: string)

  /** A day row of the grid, with the name of the holiday on it or `''`. */
  datatype Day = Day(dayIndex: int, date: string, displayDate: string, holidayName: string)

  /** The details of one week (`currentWeekData`). */
  datatype WeekData = WeekData(id: string, title: string, dateRange: string, days: seq<Day>, entries: seq<Entry>)

  /** One row of the week list (`allWeeksSummary`). */
  datatype WeekSummary = WeekSummary(id: string, title: string, dateRange: string, summaryCount: int)

  /** An option of the add-week dialog. */
  datatype WeekOption = WeekOption(id: string, text: string, disabled: bool, selected: bool)

  // ------------------------------------------------------------------ grid

  /** The entries of the cell of day `dayIndex` and theme `value`, in order. */
  function CellEntries(entries: seq<Entry>, dayIndex: int, value: string): (r: seq<Entry>)
    ensures |r| <= |entries|
    ensures forall k :: 0 <= k < |r| ==> r[k] in entries && r[k].day == dayIndex && r[k].category == value
  {
    Filter(entries, (e: Entry) => e.day == dayIndex && e.category == value)
  }

  /** The themes of the grid: the configured list when there is one (an empty
      configured list included, since an empty array is truthy in JavaScript),
      otherwise the two default themes `IoT` and `DT`. */
  function ThemesOr(configured: Option<seq<Theme>>): (themes: seq<Theme>)
    ensures configured.Some? ==> themes == configured.value
    ensures configured.None? ==> |themes| == 2
  {
    if configured.Some? then configured.value
    else [Theme("IoT", "IoT"), Theme("DT", "DT")]
  }

  /** Without configured themes the grid has the columns `IoT` and `DT`. */
  lemma DefaultThemeValues()
    ensures ThemeValues(ThemesOr(None)) == {"IoT", "DT"}
  {
    var themes := ThemesOr(None);
    assert themes[0].value == "IoT" && themes[1].value == "DT";
  }

  /** The theme values, the keys of every day of the grid. */
  function ThemeValues(themes: seq<Theme>): set<string>
  {
    set j | 0 <= j < |themes| :: themes[j].value
  }

  /** An entry sits in the cell of its own day and category, provided the
      week has that day and a theme with that value, and in no other cell;
      an entry whose category is no theme's value sits in no cell. */
  lemma EntryInOneCell(entries: seq<Entry>, e: Entry, dayIndex: int, value: string)
    requires e in entries
    ensures e in CellEntries(entries, dayIndex, value) <==> e.day == dayIndex && e.category == value
  {
  }

  /** Cells keep the entries' order: splitting the entries splits every cell. */
  lemma CellEntriesAppend(a: seq<Entry>, b: seq<Entry>, dayIndex: int, value: string)
    ensures CellEntries(a + b, dayIndex, value) == CellEntries(a, dayIndex, value) + CellEntries(b, dayIndex, value)
  {
    FilterAppend(a, b, (e: Entry) => e.day == dayIndex && e.category == value);
  }

  /** The empty-week notice is shown exactly when the week has no entries,
      and then every cell is empty. */
  lemma EmptyWeekNotice(week: WeekData, dayIndex: int, value: string)
    ensures ShowsEmptyWeekNotice(week) <==> week.entries == []
    ensures ShowsEmptyWeekNotice(week) ==> CellEntries(week.entries, dayIndex, value) == []
  {
  }

  /** `currentWeekData.entries.length === 0`. */
  predicate ShowsEmptyWeekNotice(week: WeekData)
  {
    |week.entries| == 0
  }

  /** What a cell shows: a card per entry that has a `recordId`, then one
      add button. */
  datatype CellItem =
    | EntryCard(recordId: string, topic: string, participants: string, summary: Option<string>)
    | AddButton

  /** The card of an entry: the topic or `無主題`, the participants or `無`,
      and the summary only when there is one. */
  function CardOf(e: Entry): CellItem
  {
    EntryCard(e.recordId, if e.topic != "" then e.topic else "無主題",
              if e.participants != "" then e.participants else "無",
              if e.summary != "" then Some(e.summary) else None)
  }

  function CardsOf(entries: seq<Entry>): seq<CellItem>
  {
    if entries == [] then []
    else (if entries[0].recordId == "" then [] else [CardOf(entries[0])]) + CardsOf(entries[1..])
  }

  /** `renderCellContent(entries, …)`: entries without a `recordId` are
      skipped, and the add button always comes last. */
  function CellContent(entries: seq<Entry>): (items: seq<CellItem>)
    ensures |items| >= 1 && items[|items| - 1] == AddButton
  {
    CardsOf(entries) + [AddButton]
  }

  /** The card of each of `entries`, in order. */
  function CardsFor(entries: seq<Entry>): (cards: seq<CellItem>)
    ensures |cards| == |entries|
  {
    seq(|entries|, i requires 0 <= i < |entries| => CardOf(entries[i]))
  }

  /** Whether an entry has a `recordId`, so that its cell shows a card for it. */
  predicate HasRecordId(e: Entry)
  {
    e.recordId != ""
  }

  lemma CardsForCons(e: Entry, rest: seq<Entry>)
    ensures CardsFor([e] + rest) == [CardOf(e)] + CardsFor(rest)
  {
  }

  /** The cards of a cell are those of its entries with a `recordId`, in
      order. */
  lemma {:induction false} CardsOfKept(entries: seq<Entry>)
    ensures CardsOf(entries) == CardsFor(Filter(entries, HasRecordId))
  {
    if entries != [] {
      CardsOfKept(entries[1..]);
      var rest := Filter(entries[1..], HasRecordId);
      if HasRecordId(entries[0]) {
        assert Filter(entries, HasRecordId) == [entries[0]] + rest;
        CardsForCons(entries[0], rest);
      } else {
        assert Filter(entries, HasRecordId) == rest;
      }
    }
  }

  /** A cell shows the cards of its entries with a `recordId`, in order,
      and then the add button, which is its only non-card item. */
  lemma CellContentCards(entries: seq<Entry>)
    ensures CellContent(entries) == CardsFor(Filter(entries, HasRecordId)) + [AddButton]
  {
    CardsOfKept(entries);
  }

  // ---------------------------------------------------------- participants

  /** `parts.map(p => p.trim())`. */
  function TrimAll(parts: seq<string>): (r: seq<string>)
    ensures |r| == |parts|
  {
    seq(|parts|, i requires 0 <= i < |parts| => Trim(parts[i]))
  }

  /** `(stored || '').split(',').map(p => p.trim()).filter(Boolean)`. */
  function ParticipantNames(stored: string): (r: seq<string>)
    ensures forall k :: 0 <= k < |r| ==> r[k] != ""
  {
    Filter(TrimAll(Split(stored, ",")), (p: string) => p != "")
  }

  /** An empty participants field names nobody. */
  lemma NoParticipants()
    ensures ParticipantNames("") == []
  {
    assert IndexOf("", ",") == -1;
    assert Split("", ",") == [""];
    assert TrimAll([""]) == [""];
  }

  lemma TrimAllClean(names: seq<string>)
    requires forall i :: 0 <= i < |names| ==> CleanName(names[i])
    ensures TrimAll(names) == names
  {
    forall i | 0 <= i < |names|
      ensures TrimAll(names)[i] == names[i]
    {
      TrimUnchanged(names[i]);
    }
  }

  /** The participants checked when the editor opens on an existing entry. */
  function SelectedParticipants(stored: string): set<string>
  {
    set p | p in ParticipantNames(stored)
  }

  /** The checked team members, in the order the checkboxes list them. */
  function CheckedMembers(members: seq<string>, selected: set<string>): seq<string>
  {
    Filter(members, (m: string) => m in selected)
  }

  /** `selectedParticipants.join(',')`. */
  function JoinParticipants(names: seq<string>): string
  {
    Join(names, ",")
  }

  /** A name that survives a save: non-empty, free of `,` and not padded with
      white space. */
  predicate CleanName(s: string)
  {
    s != "" && ',' !in s && !IsJsSpace(s[0]) && !IsJsSpace(s[|s| - 1])
  }

  /** Reading back saved participants gives the names saved, in order. */
  lemma ParticipantsRoundTrip(names: seq<string>)
    requires forall i :: 0 <= i < |names| ==> CleanName(names[i])
    ensures ParticipantNames(JoinParticipants(names)) == names
  {
    if names == [] {
      NoParticipants();
    } else {
      SplitJoin(names, ',');
      TrimAllClean(names);
      FilterAll(names, (p: string) => p != "");
    }
  }

  /** Opening the editor on an entry and saving it unchanged keeps exactly
      the stored participants that are team members. */
  lemma EditorKeepsParticipants(members: seq<string>, stored: string)
    requires forall i :: 0 <= i < |members| ==> CleanName(members[i])
    ensures SelectedParticipants(JoinParticipants(CheckedMembers(members, SelectedParticipants(stored))))
            == set m | m in members && m in SelectedParticipants(stored)
  {
    var checked := CheckedMembers(members, SelectedParticipants(stored));
    forall i | 0 <= i < |checked|
      ensures CleanName(checked[i])
    {
      var j :| 0 <= j < |members| && members[j] == checked[i];
    }
    ParticipantsRoundTrip(checked);
  }

  // ----------------------------------------------------------------- save

  /** The editor form as submitted: `recordId` is `''` for a new entry. */
  datatype EntryForm = EntryForm(
    recordId: string, rowIndex: string, date: string, category: string, topic: string,
    participants: seq<string>, summary: string, actionItems: string)

  /** The body sent to the server. */
  datatype EntryData = EntryData(
    date: string, category: string, topic: string, participants: string,
    summary: string, actionItems: string, rowIndex: string)

  datatype SaveRequest =
    | NoRequest
    | Send(httpMethod: string, url: string, body: EntryData)

  const WeeklyApi := "/api/business/weekly"

  /** `handleSaveWeeklyEntry`: no request without a topic; otherwise a POST
      of a new entry, or a PUT to the entry's own URL. */
  function SaveRequestFor(form: EntryForm): (r: SaveRequest)
    ensures r.NoRequest? <==> form.topic == ""
    ensures r.Send? ==> (r.httpMethod == "POST" <==> form.recordId == "")
    ensures r.Send? ==> (r.httpMethod == "PUT" <==> form.recordId != "")
    ensures r.Send? && form.recordId == "" ==> r.url == WeeklyApi
    ensures r.Send? && form.recordId != "" ==> r.url == WeeklyApi + "/" + form.recordId
    ensures r.Send? ==> r.body.topic == form.topic && r.body.participants == JoinParticipants(form.participants)
    ensures r.Send? ==> r.body == EntryData(form.date, form.category, form.topic, JoinParticipants(form.participants),
                                            form.summary, form.actionItems, form.rowIndex)
  {
    var body := EntryData(form.date, form.category, form.topic, JoinParticipants(form.participants),
                          form.summary, form.actionItems, form.rowIndex);
    if form.topic == "" then NoRequest
    else if form.recordId == "" then Send("POST", WeeklyApi, body)
    else Send("PUT", WeeklyApi + "/" + form.recordId, body)
  }

  /** A PUT never goes to the collection URL, and its URL gives back the
      record id. */
  lemma SaveUrlNamesRecord(form: EntryForm)
    requires SaveRequestFor(form).Send? && form.recordId != ""
    ensures SaveRequestFor(form).url != WeeklyApi
    ensures StartsWith(SaveRequestFor(form).url, WeeklyApi + "/")
    ensures SaveRequestFor(form).url[|WeeklyApi + "/"|..] == form.recordId
  {
    assert |SaveRequestFor(form).url| > |WeeklyApi|;
  }

  // ------------------------------------------------------------------ page

  /** The page's module state. */
  class WeeklyBusinessPage {
    var currentWeekData: Option<WeekData>
    var allWeeksSummary: seq<WeekSummary>

    constructor()
      ensures currentWeekData == None && allWeeksSummary == []
    {
      currentWeekData := None;
      allWeeksSummary := [];
    }

    /** `allWeeksSummary = result.data || []`. */
    method SummaryLoaded(data: Option<seq<WeekSummary>>)
      modifies this
      ensures allWeeksSummary == (if data.Some? then data.value else [])
      ensures currentWeekData == old(currentWeekData)
    {
      allWeeksSummary := if data.Some? then data.value else [];
    }

    /** `currentWeekData = result.data`. */
    method DetailLoaded(data: WeekData)
      modifies this
      ensures currentWeekData == Some(data)
      ensures allWeeksSummary == old(allWeeksSummary)
    {
      currentWeekData := Some(data);
    }

    /** The `daysData` grid of `renderWeeklyDetailView` for the configured
        themes, if any: a row per day, a cell per theme value, each holding
        that day's entries of that theme. */
    method GroupDays(configured: Option<seq<Theme>>) returns (daysData: map<int, map<string, seq<Entry>>>)
      requires currentWeekData.Some?
      ensures daysData.Keys == set i | 0 <= i < |currentWeekData.value.days| :: currentWeekData.value.days[i].dayIndex
      ensures forall d :: d in daysData ==> daysData[d].Keys == ThemeValues(ThemesOr(configured))
      ensures forall d, v :: d in daysData && v in daysData[d] ==>
                daysData[d][v] == CellEntries(currentWeekData.value.entries, d, v)
    {
      var themes := ThemesOr(configured);
      var days := currentWeekData.value.days;
      var entries := currentWeekData.value.entries;
      daysData := map[];
      for i := 0 to |days|
        invariant daysData.Keys == set j | 0 <= j < i :: days[j].dayIndex
        invariant forall d :: d in daysData ==> daysData[d].Keys == ThemeValues(themes)
        invariant forall d, v :: d in daysData && v in daysData[d] ==> daysData[d][v] == CellEntries(entries, d, v)
      {
        var row: map<string, seq<Entry>> := map[];
        for t := 0 to |themes|
          invariant row.Keys == set j | 0 <= j < t :: themes[j].value
          invariant forall v :: v in row ==> row[v] == CellEntries(entries, days[i].dayIndex, v)
        {
          row := row[themes[t].value := Filter(entries, (e: Entry) => e.day == days[i].dayIndex && e.category == themes[t].value)];
        }
        daysData := daysData[days[i].dayIndex := row];
      }
    }

    /** `showAddWeekModal` on day `today`: the options of the week chooser. */
    method AddWeekOptions(today: int) returns (options: seq<WeekOption>)
      ensures options == OptionsFor(WeekChoices(today), SummaryIds(allWeeksSummary), WeekId(today))
    {
      var currentWeekId := WeekId(today);
      var existingWeekIds := SummaryIds(allWeeksSummary);
      var weekOptions := [(WeekId(WeeksLater(today, -1)), "上一週"), (currentWeekId, "本週"),
                          (WeekId(WeeksLater(today, 1)), "下一週")];
      options := RenderWeekOptions(weekOptions, existingWeekIds, currentWeekId);
    }
  }

  /** The weeks the dialog offers, with their captions: the week before
      `today`, the week of `today` and the week after. */
  function WeekChoices(today: int): (choices: seq<(string, string)>)
    ensures |choices| == 3
    ensures choices[1].0 == WeekId(today)
  {
    [(WeekId(WeeksLater(today, -1)), "上一週"), (WeekId(today), "本週"),
     (WeekId(WeeksLater(today, 1)), "下一週")]
  }

  /** `new Set(allWeeksSummary.map(w => w.id))`: the ids of the weeks listed. */
  function SummaryIds(summary: seq<WeekSummary>): set<string>
  {
    set j | 0 <= j < |summary| :: summary[j].id
  }

  /** One option per offered week: disabled when its id is already taken,
      selected when it is the current week. */
  function OptionsFor(choices: seq<(string, string)>, existingWeekIds: set<string>, currentWeekId: string): seq<WeekOption>
  {
    seq(|choices|, k requires 0 <= k < |choices| =>
      WeekOption(choices[k].0, choices[k].1, choices[k].0 in existingWeekIds, choices[k].0 == currentWeekId))
  }

  /** The `forEach` that renders the dialog's weeks in order. */
  method RenderWeekOptions(weekOptions: seq<(string, string)>, existingWeekIds: set<string>, currentWeekId: string)
    returns (options: seq<WeekOption>)
    ensures options == OptionsFor(weekOptions, existingWeekIds, currentWeekId)
  {
    options := [];
    for i := 0 to |weekOptions|
      invariant options == OptionsFor(weekOptions[..i], existingWeekIds, currentWeekId)
    {
      var disabled := weekOptions[i].0 in existingWeekIds;
      var selected := weekOptions[i].0 == currentWeekId;
      options := options + [WeekOption(weekOptions[i].0, weekOptions[i].1, disabled, selected)];
    }
    assert weekOptions[..|weekOptions|] == weekOptions;
  }

  /** An option is disabled exactly when some listed week already has its id,
      and selected exactly when it is the current week; every offered week
      gets one option, in order. */
  lemma OptionsForMeaning(choices: seq<(string, string)>, summary: seq<WeekSummary>, currentWeekId: string, k: int)
    requires 0 <= k < |choices|
    ensures |OptionsFor(choices, SummaryIds(summary), currentWeekId)| == |choices|
    ensures OptionsFor(choices, SummaryIds(summary), currentWeekId)[k].id == choices[k].0
    ensures (OptionsFor(choices, SummaryIds(summary), currentWeekId)[k].disabled <==>
             exists j :: 0 <= j < |summary| && summary[j].id == choices[k].0)
    ensures OptionsFor(choices, SummaryIds(summary), currentWeekId)[k].selected <==> choices[k].0 == currentWeekId
  {
  }

  /** The current week's option is always the selected one. */
  lemma CurrentWeekSelected(today: int, summary: seq<WeekSummary>)
    ensures OptionsFor(WeekChoices(today), SummaryIds(summary), WeekId(today))[1].selected
  {
  }

  /** The dialog's previous and next weeks are the current week's neighbours
      as the corrected `getAdjacentWeekId` computes them. */
  lemma AddWeekOptionsAdjacent(today: int)
    requires AfterYear100(WeeksLater(MondayOf(today), -1))
    ensures WeekId(WeeksLater(today, -1)) == AdjacentWeekId(WeekId(today), -1)
    ensures WeekId(WeeksLater(today, 1)) == AdjacentWeekId(WeekId(today), 1)
  {
    MondayOfWeek(today);
    AfterYear100Later(WeeksLater(MondayOf(today), -1), today - 7);
    AfterYear100Later(WeeksLater(MondayOf(today), -1), WeeksLater(MondayOf(today), 1) - 7);
    AdjacentOfWeekId(today, -1);
    AdjacentOfWeekId(today, 1);
  }
}
