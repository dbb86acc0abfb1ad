# CRM core in Dafny

A Dafny model of the logic at the heart of a small CRM that keeps its data in
Google Sheets and its meetings in Google Calendar. Five pieces are modelled:

- **The contact reader** (`data/contact-reader.js`). It parses business-card
  rows and filed-contact rows. It joins an opportunity's active contact links
  to the filed contacts, their company names and the drive link of their
  business card. It searches both lists and paginates the filed ones. The
  fetched sheet rows are inputs.
- **Week identifiers** (`getWeekId` in `services/index.js` and its copy
  `getWeekIdForDate` in `public/scripts/weekly-business.js`). Also
  `getWeekInfo` and `getAdjacentWeekId`. Dates are day numbers since
  1970-01-01. Weeks are the ISO 8601 weeks that run Monday to Sunday and
  belong to the year of their Thursday.
- **The weekly-business page** (`public/scripts/weekly-business.js`). It
  covers the page state, the day × theme grid and what each cell shows, the
  participants that the entry editor reads and writes, the save request with
  its required topic, and the previous, current and next weeks offered by the
  add-week dialog.
- **The opportunity stage stepper**
  (`public/scripts/opportunity-details/stepper.js`). It is a class over an
  array of steps. It has the three-state circle cycle and the name click that
  marks one step current. Edit mode derives each status. Saving writes the
  `C:id,X:id` history, and the view mode parses it back.
- **The calendar adapter** (`services/calendar-service.js`). It checks an
  event's start time and computes its duration and end time. It shapes this
  week's events and folds the holiday list into a map. Each call to the
  calendar API is replaced by the response it returned.

Modules, one per file:

- `Common`: `Option`, `Result`, `filter`, `slice` and `new Map(entries)`.
- `Text`: ASCII lower case, `includes`, `split`/`join`, `trim`,
  `parseInt(s, 10)`, `Number(s)` on integer numerals and `String(n)`.
- `CivilDates`: the proleptic Gregorian calendar of `Date` in UTC.
- `WeekIds`, `ContactReader`, `WeeklyBusiness`, `Stepper` and
  `CalendarService`.

## Model

| member | source | states |
|---|---|---|
| `CivilDates.CivilOfDayNumber` | services/index.js:25 | Converting a valid calendar date to its day number and back gives the same date, so `getUTCFullYear`/`getUTCMonth`/`getUTCDate` read back what `Date.UTC` was given. |
| `CivilDates.YearOfUnique` | services/index.js:29 | The year of a day is the one year whose 1 January to 31 December span holds it. |
| `WeekIds.YearOfMonotone` | services/index.js:29 | A later day never falls in an earlier year. |
| `CivilDates.UtcDayOfCivil` | services/index.js:25 | `Date.UTC` of a day's own year, month and date is that day, outside the years 0..99. |
| `CivilDates.MonthDayOfIsoDate` | services/index.js:46-54 | A day's `date` is ten characters `YYYY-MM-DD` and its `displayDate` is the same month and day as `MM/DD`. Both fields read back as the day's month and day of the month. |
| `Text.IncludesIsInfix` | data/contact-reader.js:191-192 | `includes` is true exactly when the term occurs as a contiguous substring. |
| `Text.LowerIdempotent` | data/contact-reader.js:188-192 | Lower-casing an already lower-cased string changes nothing, so lower-casing the query once is enough. |
| `Text.ParseIntOfDigits` | data/contact-reader.js:144 | `parseInt(s, 10)` of a run of digits followed by a non-digit is the run's decimal value. |
| `Text.ParseIntOfDecimal` | data/contact-reader.js:144 | `parseInt(String(n) + rest, 10)` reads back `n` when `rest` does not start with a digit. |
| `Text.ToNumberOfIntToString` | services/index.js:35 | `Number(String(n))` is `n`. |
| `Text.ToNumberOfPadded` | services/index.js:35 | `Number` of a zero-padded decimal is its value, so the padded week reads back as the week number. |
| `Text.SplitJoin` | public/scripts/opportunity-details/stepper.js:61-107 | Joining parts free of the separator and splitting on it again gives back the parts. |
| `Text.JoinSplit` | public/scripts/weekly-business.js:277 | Splitting on a separator and joining on it again gives back the original string. |
| `Text.TrimUnchanged` | public/scripts/weekly-business.js:277 | `trim` leaves a string unchanged when it neither starts nor ends with white space. |
| `WeekIds.MondayOfWeek` | services/index.js:27 | `+ 4 - (getUTCDay() \|\| 7)` moves a day to the Thursday of its Monday-to-Sunday week, with Sunday counted as day 7 of the week. |
| `WeekIds.WeekIdIsIsoWeek` | services/index.js:25-32 | The year and number `getWeekId` computes are the ISO 8601 week of the date, and the number lies in 1..53. |
| `WeekIds.WeekIdMatchesIso` | services/index.js:28-32 | A day lies in ISO week `w` of year `y` if and only if `getWeekId` reports that year and that number. |
| `WeekIds.WeekId` | services/index.js:13-33 | Formats the week-numbering year and the week number of a day as `YYYY-Www`. It has no contract of its own; `WeekIdIsIsoWeek` and `WeekIdMatchesIso` state what it means. |
| `WeekIds.IsoWeekUnique` | services/index.js:25-32 | A day lies in exactly one ISO week: two ISO weeks that hold it have the same year and number. |
| `WeekIds.WeekIdOfIsoWeek` | services/index.js:25-32 | The id of a day in ISO week `w` of year `y` is `y-Www`. |
| `WeekIds.IsoMondayOfDay` | services/index.js:27-31 | The ISO Monday of a day's week is the Monday on or before that day. |
| `WeekIds.WeekIdConstantOnWeek` | public/scripts/weekly-business.js:424-431 | All seven days from a Monday to the following Sunday get the same id. The page's copy is the same function. |
| `WeekIds.SameWeekSameId` | services/index.js:25-32 | Two days with the same Monday get the same id. |
| `WeekIds.WeekIdMondayExample` | services/index.js:32 | Monday 2024-01-01 gets `2024-W01`. |
| `WeekIds.WeekIdYearEndExample` | services/index.js:32 | Tuesday 2024-12-31 gets `2025-W01`. |
| `WeekIds.ParseFormatWeekId` | services/index.js:35 | `split('-W').map(Number)` reads a formatted id back as its year and its week. |
| `WeekIds.SplitFormatWeekId` | services/index.js:32-35 | Splitting a formatted id on `-W` gives exactly the year's digits and the zero-padded week. |
| `WeekIds.ParseWeekId` | services/index.js:35 | `split('-W').map(Number)`. It has no contract of its own; `ParseFormatWeekId` states that it inverts `FormatWeekId`. |
| `WeekIds.WeekInfoAsWritten` | services/index.js:34-62 | The written `getWeekInfo` gives a result exactly when the id parses, and then it lists five days with `weekOfMonth` in 1..5. |
| `WeekIds.WeekOfMonth` | services/index.js:43 | `Math.ceil(day / 7)` lies in 1..5, and it is the week of the month holding the Monday's day of the month. |
| `WeekIds.WeekInfoFrom` | services/index.js:40-60 | The week info lists exactly five days, Monday to Friday, with `dayIndex` 1..5. The short range runs from Monday's `MM/DD` to that of the day four days later. The date range is the short range in parentheses. |
| `WeekIds.ApproxMondayIsMonday` | services/index.js:36-39 | `getWeekInfo` starts on a Monday: the Monday of the week holding `1 January + (week - 1) * 7`. |
| `WeekIds.ApproxMondayVersusIso` | services/index.js:36-39 | That Monday is the ISO Monday of the week when 1 January is a Monday to Thursday. Otherwise it is seven days earlier. |
| `WeekIds.WeekInfoAgreesIffEarlyNewYear` | services/index.js:36-39 | The written `getWeekInfo` agrees with the ISO reading exactly in the years whose 1 January is a Monday to Thursday. |
| `WeekIds.JanuaryFirstFridayWeekInfo` | services/index.js:36-39 | 1 January 2021 is a Friday. The written code lists `2021-W01` from 2020-12-28, while its ISO Monday is 2021-01-04. |
| `WeekIds.IsoWeekInfoRoundTrip` | services/index.js:34-62 | The corrected `getWeekInfo` of a week's id starts on that week's ISO Monday, and each day it lists carries the id it was asked for. |
| `WeekIds.IsoMondayInWeek` | services/index.js:36-39 | The ISO Monday of a valid week lies in that week. |
| `WeekIds.AdjacentOfFormattedId` | public/scripts/weekly-business.js:434-442 | Both readings of `getAdjacentWeekId` parse a formatted id back to its year and week before they move. |
| `WeekIds.AdjacentWeekIdAgrees` | public/scripts/weekly-business.js:437-441 | In a year whose 1 January is a Monday to Thursday, the written `getAdjacentWeekId` gives the ISO week `direction` weeks away. |
| `WeekIds.AdjacentWeekIdAsWritten` | public/scripts/weekly-business.js:434-442 | An id that does not parse gives `NaN-WNaN`. |
| `WeekIds.ApproxWeekIdAfterLags` | public/scripts/weekly-business.js:437-441 | In a year whose 1 January is a Friday to Sunday, the written code lands one week short of the target. |
| `WeekIds.NextWeekStuckAsWritten` | public/scripts/weekly-business.js:437-441 | In such a year, the written "next week" of any of the year's weeks is that same week. |
| `WeekIds.JanuaryFirstFridayNextWeek` | public/scripts/weekly-business.js:437 | The written `getAdjacentWeekId('2021-W01', 1)` gives `2021-W01`, and the corrected one gives `2021-W02`. |
| `WeekIds.AdjacentWeekIdMoves` | public/scripts/weekly-business.js:434-442 | The corrected `getAdjacentWeekId` names a valid week whose Monday is exactly `7 * direction` days after the Monday of the given week. |
| `WeekIds.AdjacentOfWeekId` | public/scripts/weekly-business.js:434-442 | The corrected `getAdjacentWeekId` of a day's id is the id of the day `direction` weeks away. |
| `ContactReader.ParseCards` | data/contact-reader.js:23-40 | There is one card per fetched row, in fetch order. Each card is its row parsed at that row's position. |
| `ContactReader.CardRowIndexes` | data/contact-reader.js:24 | A card's `rowIndex` is its 0-based position plus 2, so two cards share a `rowIndex` only if they are the same row. |
| `ContactReader.ParseCard` | data/contact-reader.js:23-40 | A card's `rowIndex` is its 0-based position plus 2. `MissingCellsEmpty` and `ParseCardRow` state its fields. |
| `ContactReader.ParseListedContact` | data/contact-reader.js:71-85 | Reads columns A to M into the thirteen fields, with `''` for a missing cell. It has no contract of its own; `ParseContactListRow` states its round trip. |
| `ContactReader.ParseLink` | data/contact-reader.js:98-105 | Reads the six link fields from their configured columns, with `''` for a missing cell. It has no contract of its own; `LinkedContactsOnlyActive` uses its `opportunityId`, `status` and `contactId`. |
| `ContactReader.MissingCellsEmpty` | data/contact-reader.js:25-39 | Each field is the cell of its configured column, or `''` when the row is shorter than that column. |
| `ContactReader.ParseCardRow` | data/contact-reader.js:23-40 | A card stored with each field in its own configured column parses back to the same card. |
| `ContactReader.ParseContactListRow` | data/contact-reader.js:71-85 | A filed contact stored in columns A to M parses back to the same contact, whatever follows. An empty row gives all-empty fields. |
| `ContactReader.GetContacts` | data/contact-reader.js:59 | `getContacts(limit)` returns the first `limit` cards of the sorted cache, or all of them when there are fewer. |
| `ContactReader.GetContactsKeepsRows` | data/contact-reader.js:50-59 | At most `limit` cards come back, all of them parsed rows. When the cap covers every row, every row is there, including rows with neither name nor company. |
| `ContactReader.GetLinkedContacts` | data/contact-reader.js:115-171 | The loop that collects the active contact ids, the early `[]` and the join together compute the `LinkedContacts` join. |
| `ContactReader.LinkedContacts` | data/contact-reader.js:117-168 | The join returns at most one record per filed contact. |
| `ContactReader.LinkedContactsMembers` | data/contact-reader.js:138-139 | Every filed contact that an active link of the opportunity names is returned, joined. |
| `ContactReader.LinkedContactsOnlyActive` | data/contact-reader.js:117-123 | Every returned record is a filed contact joined, and some link with this `opportunityId` and status exactly `active` names it. |
| `ContactReader.LinkedContactsAppend` | data/contact-reader.js:138-168 | The join keeps the contact list's order: it distributes over concatenation of the contact list. |
| `ContactReader.NoActiveLinksNoContacts` | data/contact-reader.js:125 | With no active link for the opportunity, the result is `[]`. |
| `ContactReader.CompanyNameLookup` | data/contact-reader.js:165 | The company name is the name from the last company-list entry with that id. When that name is empty, it is the raw `companyId`. |
| `ContactReader.CompanyNameUnlisted` | data/contact-reader.js:134 | An id absent from the company list falls back to the raw `companyId`. |
| `ContactReader.CompanyNameOf` | data/contact-reader.js:165 | An id missing from the map falls back to itself, and the name is empty only for an empty id. |
| `ContactReader.DriveLinkOf` | data/contact-reader.js:141-152 | A source id without the `BC-` prefix gets no drive link, and a non-empty drive link is that of some loaded card. |
| `ContactReader.DriveLinkSource` | data/contact-reader.js:141-152 | A non-empty drive link requires three things: the source id starts with `BC-`, its remainder parses with `parseInt` to some `n`, and a loaded card has `rowIndex` `n`. |
| `ContactReader.DriveLinkFound` | data/contact-reader.js:143-150 | Conversely, such a `BC-<n>` source id gets the drive link of the last loaded card with `rowIndex` `n`. |
| `ContactReader.CardLookupByRow` | data/contact-reader.js:136 | The card found under `rowIndex` `n` is the parse of fetched row `n - 2`. |
| `ContactReader.SearchContacts` | data/contact-reader.js:178-197 | The two filtering passes of `searchContacts` together keep exactly the cards that satisfy `MatchesSearch`, in order. |
| `ContactReader.MatchesSearchMeaning` | data/contact-reader.js:183-193 | A card is kept if and only if it has a name or a company, and either the query is empty or the lower-cased query is a substring of its lower-cased name or company. |
| `ContactReader.EmptyQueryKeepsNamed` | data/contact-reader.js:183-188 | An empty query returns every card with a name or a company. |
| `ContactReader.WithCompanyNames` | data/contact-reader.js:213-216 | Every filed contact is kept in order, with its company name resolved as in the join. |
| `ContactReader.SearchContactListMembers` | data/contact-reader.js:218-224 | A filed contact is listed if and only if the query is empty, or the lower-cased query is a substring of its lower-cased name or company name. |
| `ContactReader.SearchContactList` | data/contact-reader.js:226-232 | `totalItems` counts the matching contacts. For an empty query that is every filed contact. |
| `ContactReader.CeilDiv` | data/contact-reader.js:231 | `Math.ceil(n / size)` is the least page count whose pages hold `n` items. |
| `ContactReader.Paginate` | data/contact-reader.js:226-232 | `current` is the page, `totalItems` the item count and `total` the ceiling of items over page size. `hasPrev` holds exactly for pages after the first. |
| `ContactReader.HasNextBeforeLastPage` | data/contact-reader.js:231 | `hasNext` holds exactly when the page comes before the last page. |
| `ContactReader.PageData` | data/contact-reader.js:227-228 | A page's `data` is the slice that starts at `(page - 1) * size`, and it holds at most `size` items. |
| `ContactReader.PagesUpToPrefix` | data/contact-reader.js:227-228 | Pages 1 to `k` together are the items before the start of page `k + 1`. |
| `ContactReader.PagesCoverItems` | data/contact-reader.js:226-231 | Pages 1 to `total` concatenate to the whole list, so every item is on exactly one page, in order. |
| `WeeklyBusiness.WeeklyBusinessPage.constructor` | public/scripts/weekly-business.js:3-4 | The page starts with no week loaded and an empty week list. |
| `WeeklyBusiness.WeeklyBusinessPage.SummaryLoaded` | public/scripts/weekly-business.js:28 | The week list becomes the response data, or `[]` without data. The loaded week is unchanged. |
| `WeeklyBusiness.WeeklyBusinessPage.DetailLoaded` | public/scripts/weekly-business.js:123 | The loaded week becomes the response data. The week list is unchanged. |
| `WeeklyBusiness.WeeklyBusinessPage.GroupDays` | public/scripts/weekly-business.js:146-156 | The nested loops build one row per day of the week and one cell per theme value in every row, for the configured themes or the defaults. Each cell holds that day's entries of that theme, in order. |
| `WeeklyBusiness.ThemesOr` | public/scripts/weekly-business.js:146 | A configured theme list is used as it is, an empty one included. Without one there are two default themes. |
| `WeeklyBusiness.DefaultThemeValues` | public/scripts/weekly-business.js:146 | The default themes are the columns `IoT` and `DT`. |
| `WeeklyBusiness.CellEntries` | public/scripts/weekly-business.js:154 | A cell holds only entries of the week that have the cell's day and theme, and no more of them than the week has. |
| `WeeklyBusiness.EntryInOneCell` | public/scripts/weekly-business.js:154 | An entry is in cell (day, theme) if and only if its `day` and `category` are that day and that theme's value. An entry whose category is no theme's value is in no cell. |
| `WeeklyBusiness.CellEntriesAppend` | public/scripts/weekly-business.js:154 | Cells keep the entries' order: they distribute over concatenation of the entries. |
| `WeeklyBusiness.EmptyWeekNotice` | public/scripts/weekly-business.js:158 | The empty-week notice shows if and only if the week has no entries, and then every cell is empty. |
| `WeeklyBusiness.CellContent` | public/scripts/weekly-business.js:266-267 | A cell always ends with exactly one add button. |
| `WeeklyBusiness.CellContentCards` | public/scripts/weekly-business.js:247-268 | A cell shows one card per entry that has a `recordId`, in order, and then the add button. Entries without a `recordId` show nothing. |
| `WeeklyBusiness.CardsOfKept` | public/scripts/weekly-business.js:248-252 | The cards drawn are those of the entries that have a `recordId`: the skipped entries contribute nothing. |
| `WeeklyBusiness.NoParticipants` | public/scripts/weekly-business.js:277 | An empty participants field selects nobody. |
| `WeeklyBusiness.ParticipantNames` | public/scripts/weekly-business.js:277 | No name read from the participants field is empty. |
| `WeeklyBusiness.ParticipantsRoundTrip` | public/scripts/weekly-business.js:277 | Splitting on `,`, trimming and dropping empties reads back exactly the joined names, in order. This holds for non-empty names free of commas and surrounding white space. |
| `WeeklyBusiness.EditorKeepsParticipants` | public/scripts/weekly-business.js:280-289 | Opening the editor on an entry and saving it unchanged keeps exactly the stored participants who are team members. |
| `WeeklyBusiness.SaveRequestFor` | public/scripts/weekly-business.js:362-386 | No request is sent if and only if the topic is empty. Otherwise a new entry is a POST to `/api/business/weekly`, and an existing one is a PUT to `/api/business/weekly/<recordId>`. The body is the form's date, category, topic, comma-joined participants, summary, action items and row index. |
| `WeeklyBusiness.SaveUrlNamesRecord` | public/scripts/weekly-business.js:384 | A PUT never goes to the collection URL, and the record id is the rest of its URL. |
| `WeeklyBusiness.WeeklyBusinessPage.AddWeekOptions` | public/scripts/weekly-business.js:477-497 | The dialog offers the options for the week before today, today's week and the week after, checked against the listed week ids. |
| `WeeklyBusiness.WeekChoices` | public/scripts/weekly-business.js:486-490 | Exactly three weeks are offered, and the middle one is today's week. |
| `WeeklyBusiness.RenderWeekOptions` | public/scripts/weekly-business.js:493-497 | The loop yields one option per offered week, in order. |
| `WeeklyBusiness.OptionsForMeaning` | public/scripts/weekly-business.js:484-496 | An option is disabled if and only if some listed week has its id. It is selected if and only if it is the current week. |
| `WeeklyBusiness.CurrentWeekSelected` | public/scripts/weekly-business.js:495 | The current week's option is selected. |
| `WeeklyBusiness.AddWeekOptionsAdjacent` | public/scripts/weekly-business.js:479-489 | The previous and next weeks offered are the neighbours that the corrected `getAdjacentWeekId` gives for today's week. |
| `Stepper.HistoryItems` | public/scripts/opportunity-details/stepper.js:48-57 | There are at most as many history items as steps. |
| `Stepper.HistoryItemsMeaning` | public/scripts/opportunity-details/stepper.js:48-57 | Every history item is `C:<id>` of a completed step or `X:<id>` of a skipped step. Every completed step contributes its `C:` item and every skipped step its `X:` item, so pending steps contribute nothing. |
| `Stepper.HistoryItemsAppend` | public/scripts/opportunity-details/stepper.js:48-57 | The items keep the steps' order: the items of two runs of steps are those of the first run followed by those of the second. |
| `Stepper.SerializeHistory` | public/scripts/opportunity-details/stepper.js:61 | Joins the items with `,`. It has no contract of its own; `SerializeEmptyIffUnmarked` and `SaveThenViewRestores` state what it means. |
| `Stepper.SerializeEmptyIffUnmarked` | public/scripts/opportunity-details/stepper.js:48-61 | The saved history is empty exactly when no step is completed or skipped. |
| `Stepper.ParseHistory` | public/scripts/opportunity-details/stepper.js:105-111 | An empty history gives the empty map. |
| `Stepper.ParseHistoryKeys` | public/scripts/opportunity-details/stepper.js:105-111 | For a non-empty history, the map's keys are exactly the stage ids its comma-separated items name, with `undefined` for an item without `:`. |
| `Stepper.StepEntriesLookup` | public/scripts/opportunity-details/stepper.js:48-57 | With distinct stage ids, the saved history maps a completed stage to `C` and a skipped one to `X`, and has no entry for a pending stage. |
| `Stepper.ViewStatus` | public/scripts/opportunity-details/stepper.js:114-119 | A stage is completed if and only if its history code is `C`, and skipped if and only if it is `X`. It is pending for any other code or no entry. |
| `Stepper.StageStatusMap` | public/scripts/opportunity-details/stepper.js:105-111 | The loop builds the map `ParseHistory` describes. |
| `Stepper.ParseHistoryLastWins` | public/scripts/opportunity-details/stepper.js:107-110 | A later history item for the same stage overrides an earlier one. |
| `Stepper.ViewStep` | public/scripts/opportunity-details/stepper.js:113-121 | A drawn step is completed or skipped exactly as its history says, and it is current if and only if it is the opportunity's current stage. |
| `Stepper.ViewSteps` | public/scripts/opportunity-details/stepper.js:113-121 | The view draws one step per configured stage, and step `i` is the step drawn for stage `i` at position `i`. |
| `Stepper.EditStatus` | public/scripts/opportunity-details/stepper.js:172-176 | Edit mode derives a step's status from its classes, and `skipped` takes precedence over `completed`. |
| `Stepper.EditModeOfViewStep` | public/scripts/opportunity-details/stepper.js:172-176 | Edit mode gives a drawn step the status its history gave it, with status, classes and icon in agreement. |
| `Stepper.Clicked` | public/scripts/opportunity-details/stepper.js:15-33 | A circle click turns pending into completed ✓, completed into skipped ✕, and skipped into pending with the step's 1-based position. It leaves any other status unchanged. |
| `Stepper.ClickKeepsConsistent` | public/scripts/opportunity-details/stepper.js:15-33 | A click keeps status, classes and icon in agreement. |
| `Stepper.ThreeClicksRestore` | public/scripts/opportunity-details/stepper.js:15-33 | Three clicks bring a step back to where it started. |
| `Stepper.CurrentStageFirstMarked` | public/scripts/opportunity-details/stepper.js:59-60 | The saved current stage is that of the first step marked current, or the opportunity's existing stage when no step is marked. |
| `Stepper.SaveThenViewRestores` | public/scripts/opportunity-details/stepper.js:48-61 | Parsing the saved history restores every step's status. This holds when stage ids are distinct and contain neither `,` nor `:`. |
| `Stepper.StepperWidget.constructor` | public/scripts/opportunity-details/stepper.js:221-228 | `init` stores the opportunity's row, stage and history and draws the steps from them. |
| `Stepper.StepperWidget.RenderViewMode` | public/scripts/opportunity-details/stepper.js:94-132 | Cancelling redraws the steps from the saved history and leaves the saved fields alone. |
| `Stepper.StepperWidget.RenderEditMode` | public/scripts/opportunity-details/stepper.js:172-176 | Every step gets the status derived from its classes, and nothing else changes. |
| `Stepper.StepperWidget.CircleClick` | public/scripts/opportunity-details/stepper.js:9-34 | The clicked step advances one state, and every other step is unchanged. |
| `Stepper.StepperWidget.NameClick` | public/scripts/opportunity-details/stepper.js:37-41 | Afterwards exactly the clicked step is marked current. Nothing else changes. |
| `Stepper.StepperWidget.SaveChanges` | public/scripts/opportunity-details/stepper.js:44-65 | The PUT goes to `/api/opportunities/<rowIndex>` with the serialised history and the current stage. |
| `Stepper.NameClickSavesStage` | public/scripts/opportunity-details/stepper.js:38-60 | After a name click, saving reports the clicked step's stage. |
| `CalendarService.TimeClip` | services/calendar-service.js:33 | A time value makes a valid `Date` if and only if it lies within ±8.64e15 ms. |
| `CalendarService.OrEmpty` | services/calendar-service.js:37 | A missing description or location becomes `''`, and a present one is kept. |
| `CalendarService.DurationMinutes` | services/calendar-service.js:32 | The duration is never 0 minutes. |
| `CalendarService.DurationOfNumber` | services/calendar-service.js:32 | A duration written as a non-zero integer is taken as written, whatever follows its digits. |
| `CalendarService.DurationDefaults` | services/calendar-service.js:32 | A missing duration, one without leading digits, or one of 0 gives 60 minutes. |
| `CalendarService.PrepareEvent` | services/calendar-service.js:27-41 | An unparseable start fails with an invalid-start error. Otherwise the end is the duration in minutes × 60000 ms after the start, and the title, description, location and time zone are copied. The only other failure is an end out of range. |
| `CalendarService.PreparedIffEndInRange` | services/calendar-service.js:33-39 | With a valid start, the event is built if and only if its end is a valid time value. |
| `CalendarService.CreateCalendarEvent` | services/calendar-service.js:24-54 | The result is `{success: true, eventId, eventUrl}` if and only if the event was built and inserted. When the event cannot be built, its error is thrown, an invalid start or an end out of range, and no insert takes part. An insert failure is rethrown as it came. |
| `CalendarService.InvalidStartNoInsert` | services/calendar-service.js:27-30 | An invalid start fails the same way whatever the calendar would have answered: no insert takes part. |
| `CalendarService.WeekWindowCoversToday` | services/calendar-service.js:62-67 | The window starts at midnight on the Sunday of today's week, spans exactly seven days and holds all of today. |
| `CalendarService.WeekWindow` | services/calendar-service.js:62-67 | Computes the window from midnight on the Sunday of today's week to the last millisecond of the Saturday. It has no contract of its own; `WeekWindowCoversToday` states what it covers. |
| `CalendarService.ThisWeekEvents` | services/calendar-service.js:77-90 | `weekCount` is the number of listed events and `todayCount` the number of today's events. `todayEvents` is the first three of today's events. A failed list gives zero counts and empty lists. |
| `CalendarService.TodayEventsAreToday` | services/calendar-service.js:79-84 | Every event listed for today is one of the week's events and takes place today. |
| `CalendarService.HolidayMap` | services/calendar-service.js:110-128 | A failed list or a response without items gives an empty map. |
| `CalendarService.HolidaysForPeriod` | services/calendar-service.js:110-122 | The `forEach` over the items builds the map that `HolidayMap` describes. |
| `CalendarService.HolidayMapStep` | services/calendar-service.js:112-117 | Each item with a `start.date` sets that date to its summary in the map built so far. An item without one leaves the map unchanged. |
| `CalendarService.HolidayEntries` | services/calendar-service.js:112-117 | There is at most one entry per item, and every entry's date is non-empty. |
| `CalendarService.HolidayKeys` | services/calendar-service.js:112-117 | The map's keys are exactly the non-empty `start.date` values of the items. |
| `CalendarService.HolidayLastWins` | services/calendar-service.js:115-116 | A date maps to the summary of the last item on it: a later duplicate overwrites an earlier one. |

## Left out

- WeekIds.ParseWeekId: only numerals made of an optional sign and decimal digits are read. `Number` also reads fractions, exponents, `0x`/`0o`/`0b` prefixes and `Infinity` (`2024-W1e1` is week 10 in JavaScript), and the model reads those as NaN instead. The range of `Date` (±8.64e15 ms) is not applied to week dates either, so a week id in a year such as 300000, which gives `NaN-WNaN` in JavaScript, gets a real week id here. Both readings of `getWeekInfo` and `getAdjacentWeekId` inherit these limits.
- WeeklyBusiness.WeeklyBusinessPage.GroupDays: an entry's `day` is a number. The loose comparison `e.day == day.dayIndex` also puts an entry whose stored day is the string `"3"` into day 3, and that conversion is not modelled.
- Fetching and caching sheet ranges, the Google Sheets and Calendar APIs, `authedFetch`, `sessionStorage` and page navigation are I/O. Readers start from the fetched rows, and each API call is a response given as a parameter.
- The sheets' column numbers are configuration that is not part of this model. The business-card columns are a parameter (`CardColumns`), and the round trip assumes they are distinct.
- ContactReader.GetContacts: the creation-time sorter is not modelled, because it depends on `Date` string parsing and is not a consistent comparator. The cache is any permutation of the parsed rows (`SortedFrom`).
- ContactReader.SearchContacts: lower-casing folds ASCII letters only; Unicode case mapping is not modelled.
- ContactReader.SearchContactList: a non-positive page size is excluded. A configured page size is positive.
- ContactReader.GetLinkedContacts: the company list comes from the company reader, which is not part of this model, so it is an input.
- WeekIds.WeekId: local and UTC calendar dates are taken to agree (a UTC offset of zero or more, as in the deployment's time zone), and a date is its day number. The fallback to the current date for an invalid argument is left out, because it reads the clock.
- WeekIds.WeekIdIsIsoWeek: proved for dates from year 100 on (`AfterYear100`). `Date.UTC` moves the years 0..99 to 1900..1999, and that case is modelled but not proved ISO-correct. The other week lemmas carry the same condition.
- WeekIds.WeekInfoFrom: the month name and the title come from `toLocaleString('zh-TW')` and are left out, because they depend on the locale.
- CivilDates.MonthDayOfIsoDate: proved for the years 0..9999, where `toISOString` writes a four-digit year.
- WeeklyBusiness.SaveRequestFor: the loading overlay, the notifications and closing the panel are left out. The request is the outcome.
- WeeklyBusiness.WeeklyBusinessPage.AddWeekOptions: today is a parameter instead of the clock, and the captions are the source's own. The modal's markup is left out.
- WeeklyBusiness.CellContent: the markup of a card and the editor buttons are left out. A card is modelled as its record id, topic, participants and optional summary.
- Stepper.StepperWidget.SaveChanges: the modifier (`getCurrentUser()`), the loading overlay and the error notification are left out. The missing-container early return is left out as well, because the widget always has its steps.
- Stepper.HistoryItems: its own contract gives only the number of items. What the items are is stated by `HistoryItemsMeaning`, and their order by `HistoryItemsAppend`.
- Stepper: the hint box, the header buttons, the injected styles and the event wiring are DOM-only and left out.
- CalendarService.PrepareEvent: `new Date(startTime)` string parsing and `toISOString` formatting are left out. The parsed start is a time value given as a parameter (`None` for an invalid date), and the resource carries time values.
- CalendarService.ThisWeekEvents: the `toDateString` comparison with today depends on the host time zone, so it is a predicate given as a parameter.
- CalendarService.WeekWindowCoversToday: the window is computed on UTC days, because the host time zone is not modelled.
- Logging (`console.log`, `console.warn` and `console.error`) is left out.

## Findings

| source | as written | input that shows it | evidently intended | confidence | as-written member | corrected member |
|---|---|---|---|---|---|---|
| services/index.js:36-39 | `getWeekInfo` starts from `1 January + (week - 1) * 7` rolled back to its Monday. In a year whose 1 January is a Friday, Saturday or Sunday, that Monday is one week before the ISO week's Monday. | `getWeekInfo('2021-W01')` lists Monday 2020-12-28 to Friday 2021-01-01, but ISO week 2021-W01 starts on Monday 2021-01-04 (`WeekIds.JanuaryFirstFridayWeekInfo`). | List the days of the ISO week named by the id: start from the Monday of the week holding 4 January, plus `(week - 1) * 7` days. | not executed | `WeekIds.WeekInfoAsWritten` | `WeekIds.IsoWeekInfo` |
| public/scripts/weekly-business.js:437 | `getAdjacentWeekId` moves seven days from `1 January + (week - 1) * 7`. In such a year, that day lies in the week before the one named, so "next week" returns the same week and "previous week" skips a week. | `getAdjacentWeekId('2021-W01', 1)` returns `2021-W01` instead of `2021-W02` (`WeekIds.JanuaryFirstFridayNextWeek`, and `WeekIds.NextWeekStuckAsWritten` for every such year). | Move `7 * direction` days from the ISO Monday of the week. | not executed | `WeekIds.AdjacentWeekIdAsWritten` | `WeekIds.AdjacentWeekId` |
