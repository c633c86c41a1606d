# Class schedule generator and schedule filters, in Dafny

This project models the core of an automatic class scheduler.

- **The schedule generator** (`app/main.py`) has three parts:
  - Checks on pairs of meetings: a time conflict on one day, and a switch between physical campuses on one day (Zoom is exempt).
  - Schedule validity, and the enumeration of every valid schedule that takes one section per target course.
  - The summary stored for each schedule: credits, section count, days used, campus pattern, earliest start and latest end.
- **The filter context** (`ui/src/contexts/ScheduleFilterContext.jsx`) keeps the selected campuses and times in the page URL as repeated `campuses` and `times` query parameters. A key with no entry reads as the full default list.
- **The filter panel** (`ui/src/components/FilterPanel.jsx`) toggles one checkbox value in a selection list.
- **The time formatter** (`formatTime` in `Card.jsx` and again in `SectionCard.jsx`) turns "HH:MM:SS" into "h:MM AM/PM".

Modules:

- `Scheduler` (scheduler.dfy) models `app/main.py`. Times of day are integer seconds since midnight, because only their order matters. `ScheduleIsValid`, `GenerateSchedules`, `DaysHit` and `ComputeScheduleSummary` are methods with the source's loops. Each is proved against specification functions: `ValidSchedule`, `ValidOnly(Product(..))`, `MeetsOn`, `CampusPattern`, `EarliestStart`, `LatestEnd`. A missing course key (Python's `KeyError`) is `Failure(key)`. `min` over no meetings (Python's `ValueError`) is `Failure(NoMeetings)`.
- `ScheduleFilterContext` (schedule_filter_context.dfy) has three parts:
  - The query string is a sequence of (name, value) entries.
  - `SearchParams` is a class that models the `URLSearchParams` copy that the handlers change in place with `delete` and `append`.
  - `ScheduleFilterProvider` is a class whose field is the router's current query string. Its methods are the first-render effect and the two change handlers.
- `FilterPanel` (filter_panel.dfy) models `toggleCampus` and `toggleTime`. Both use the shared `Toggle`.
- `TimeText` (time_text.dfy) holds the string helpers that the formatters use: `split(":")`, decimal parsing and decimal printing.
- `Card` and `SectionCard` (card.dfy, section_card.dfy) hold the two copies of `formatTime`. The `SectionCard` copy is proved equal to the `Card` copy on every input whose hours field is a decimal digit string that `parseInt` reads exactly (at most 2^53 - 1).
- `Sequences` (sequences.dfy) defines `IsSubsequence` (order-preserving selection), used by both the schedule filter and the checkbox filter.
- `Wrappers` (wrappers.dfy) holds `Option` and `Result`.

## Model

| member | source | states |
|---|---|---|
| Scheduler.MeetingsConflict | app/main.py:89-92 | two meetings conflict iff they are on the same day, each starts before the other ends, and neither time range is empty |
| Scheduler.CampusSwitchSameDay | app/main.py:95-100 | definition, with no contract of its own: false on different days, false when either meeting is on Zoom, otherwise true iff the campuses differ; CampusSwitchCases and ChecksSymmetric state its properties |
| Scheduler.ConflictIffSharedInstant | app/main.py:89-92 | two meetings conflict iff they are on the same day and some instant lies in both half-open time ranges |
| Scheduler.NoConflictApart | app/main.py:89-92 | meetings on different days never conflict; a meeting that ends exactly when the other starts does not conflict with it |
| Scheduler.ChecksSymmetric | app/main.py:89-100 | the time-conflict and campus-switch checks are both symmetric |
| Scheduler.CampusSwitchCases | app/main.py:95-100 | a campus switch is false on different days and whenever either meeting is on Zoom; otherwise it holds iff the campuses differ |
| Scheduler.AllMeetings | app/main.py:104 | the flattened meeting list holds exactly the meetings of the schedule's sections |
| Scheduler.ScheduleIsValid | app/main.py:103-111 | the nested loop with early return answers true iff no pair i < j of the flattened meetings switches campus or conflicts |
| Scheduler.ValidMeansNoClashAnywhere | app/main.py:103-111 | checking only the pairs i < j is the same as checking every two distinct positions, in either order |
| Scheduler.ValidScheduleConsequences | app/main.py:103-111 | in a valid schedule, no two meetings on one day share an instant, and in-person meetings on one day share a campus |
| Scheduler.FewMeetingsValid | app/main.py:103-111 | a schedule with zero or one meeting is valid |
| Scheduler.Pools | app/main.py:115 | the pools are the target courses' section lists in target order; it fails iff some target has no entry, and then with the first such key |
| Scheduler.Product | app/main.py:117 | definition, with no contract of its own: every way of picking one element of each pool, the first pool varying slowest, as `itertools.product` orders them; ProductMembership and ProductSize state its properties |
| Scheduler.ProductMembership | app/main.py:117 | the product holds a list iff it takes, position by position, one element of each pool (soundness and completeness) |
| Scheduler.ProductSize | app/main.py:117 | the product has exactly as many combinations as the product of the pool sizes |
| Scheduler.ValidOnly | app/main.py:117-121 | definition, with no contract of its own: the combinations for which `ValidSchedule` holds, in their order; ValidOnlyFilters states its properties |
| Scheduler.ValidOnlyFilters | app/main.py:117-121 | filtering keeps exactly the valid combinations, as a subsequence (same order), and never more than there were |
| Scheduler.GenerateSchedules | app/main.py:114-121 | fails iff a target course has no entry, with the first such key as `Pools` reports it; otherwise returns the valid combinations in product order; a list is in the result iff it has one section per target, the k-th from the k-th target's pool, and is valid; the count is at most the product of the pool sizes |
| Scheduler.TotalCredits | app/main.py:128 | definition, with no contract of its own: the sum of the sections' credits; TotalCreditsAppend and TotalCreditsBound state its properties |
| Scheduler.TotalCreditsAppend | app/main.py:128 | the credit total is additive over a schedule split in two |
| Scheduler.TotalCreditsBound | app/main.py:128 | with no negative credits, the total is at least each section's credits |
| Scheduler.Ratings | app/main.py:131-135 | the list of known ratings is empty iff no section has a rating, which is when the score is None |
| Scheduler.DaysHit | app/main.py:139-142 | the day map has exactly the keys Mon to Sat, and each is true iff some meeting falls on that day |
| Scheduler.OtherDaysIgnored | app/main.py:139-142 | a meeting on a day outside Mon to Sat changes no day flag |
| Scheduler.InPersonCampuses | app/main.py:144 | definition, with no contract of its own: the set of campuses of the meetings not on Zoom; CampusPattern is stated in terms of it |
| Scheduler.CampusPattern | app/main.py:144-151 | "Online-only" when every meeting is on Zoom; "c-only" when c is the only in-person campus; "Mixed" with two or more in-person campuses |
| Scheduler.EarliestStart | app/main.py:153 | the earliest start is at most every meeting's start and is one of them |
| Scheduler.LatestEnd | app/main.py:154 | the latest end is at least every meeting's end and is one of them |
| Scheduler.ComputeScheduleSummary | app/main.py:124-169 | fails iff the schedule has no meetings; otherwise the total credits, section count, score presence, six day flags, campus pattern and the earliest start and latest end (bounds, attained) are as stated above |
| TimeText.Split | ui/src/components/Card.jsx:7 | `split(":")`: there is always at least one field and no field contains the separator; JoinSplit shows the fields rebuild the string |
| TimeText.ParseDecimal | ui/src/components/Card.jsx:8 | definition, with no contract of its own: the value of a decimal digit string, leading zeros allowed; ParseShow shows it inverts decimal printing |
| TimeText.JoinSplit | ui/src/components/Card.jsx:7 | splitting on ":" loses nothing: joining the fields gives back the string |
| TimeText.SplitAfterField | ui/src/components/Card.jsx:7 | a colon-free field followed by a colon is split off unchanged |
| TimeText.ParseShow | ui/src/components/Card.jsx:8-11 | the decimal text of a number parses back to that number |
| Card.MinutesField | ui/src/components/Card.jsx:7 | the minutes field never contains a colon |
| Card.DisplayHour | ui/src/components/Card.jsx:10 | the display hour lies in 1..12 and agrees with the hour modulo 12 |
| Card.Meridiem | ui/src/components/Card.jsx:9 | definition, with no contract of its own: "PM" from hour 12 on, "AM" before; SuffixFollowsHour states it of the formatted text |
| Card.FormatTime | ui/src/components/Card.jsx:5-12 | the text ends in " AM" or " PM" by the hour, and the text before that splits at its one colon into the display hour and the minutes field |
| Card.SuffixFollowsHour | ui/src/components/Card.jsx:9 | the text ends in " PM" iff the hour is 12 or more, and in " AM" iff it is less |
| Card.ShownHourInRange | ui/src/components/Card.jsx:10 | the shown hour reads back as a number in 1..12, congruent to the hour modulo 12; hours 0 and 12 both show as 12 |
| Card.SecondsIgnored | ui/src/components/Card.jsx:7-11 | the minutes field is copied verbatim, and the seconds field, present or absent, makes no difference |
| Card.FormatTimeOfFields | ui/src/components/Card.jsx:11 | for "HH:MM:SS" the text is `<display hour>:MM <AM or PM>` |
| SectionCard.FormatTime | ui/src/components/SectionCard.jsx:1-8 | the section card's copy gives the same text as the schedule card's on every input whose hours field is a decimal digit string of value at most 2^53 - 1 |
| SectionCard.FormatTimeShape | ui/src/components/SectionCard.jsx:3-7 | the section card's text ends in " PM" iff the hour is 12 or more, shows an hour in 1..12 congruent modulo 12, and keeps the minutes field |
| ScheduleFilterContext.GetAll | ui/src/contexts/ScheduleFilterContext.jsx:31 | definition, with no contract of its own: `getAll(key)`, the values of the entries named key, in order; GetAllAppend, GetAllEntries and GetAllWithout state its properties |
| ScheduleFilterContext.Without | ui/src/contexts/ScheduleFilterContext.jsx:43 | definition, with no contract of its own: what `delete(key)` leaves, the other entries in order; GetAllWithout and WithoutTwice state its properties |
| ScheduleFilterContext.WithDefaults | ui/src/contexts/ScheduleFilterContext.jsx:10-27 | definition, with no contract of its own: the query string with the default entries appended for each key that has none; the three WithDefaults lemmas state its properties |
| ScheduleFilterContext.Selected | ui/src/contexts/ScheduleFilterContext.jsx:30-38 | a filter reads as the key's values in order when there are any, and as the defaults otherwise |
| ScheduleFilterContext.GetAllEntries | ui/src/contexts/ScheduleFilterContext.jsx:44 | appended entries read back in order under their key and add nothing under any other key |
| ScheduleFilterContext.GetAllWithout | ui/src/contexts/ScheduleFilterContext.jsx:43 | deleting a key removes all of its values and keeps every other key's |
| ScheduleFilterContext.ReplaceAllReadsBack | ui/src/contexts/ScheduleFilterContext.jsx:41-53 | after delete-then-append, the key reads back as the new values; other keys keep their values, and their entries stay the same and in the same order |
| ScheduleFilterContext.CampusesRoundTrip | ui/src/contexts/ScheduleFilterContext.jsx:41-46 | decoding an encoded campus list gives it back, or the full default list when it was empty; the time filter is unchanged |
| ScheduleFilterContext.TimesRoundTrip | ui/src/contexts/ScheduleFilterContext.jsx:48-53 | decoding an encoded time list gives it back, or the full default list when it was empty; the campus filter is unchanged |
| ScheduleFilterContext.WithDefaultsAppendsOnlyMissing | ui/src/contexts/ScheduleFilterContext.jsx:10-27 | initialisation keeps all existing entries as a prefix, appends the defaults only for a key with no entry, and changes nothing when both keys have entries |
| ScheduleFilterContext.WithDefaultsIdempotent | ui/src/contexts/ScheduleFilterContext.jsx:14-26 | after initialisation both keys have entries, so initialising again changes nothing |
| ScheduleFilterContext.WithDefaultsKeepsSelection | ui/src/contexts/ScheduleFilterContext.jsx:10-38 | initialisation does not change what either filter reads |
| ScheduleFilterContext.SearchParams.Delete | ui/src/contexts/ScheduleFilterContext.jsx:43 | `delete` removes every entry under the key and keeps the rest in order |
| ScheduleFilterContext.SearchParams.Append | ui/src/contexts/ScheduleFilterContext.jsx:44 | `append` adds one entry at the end |
| ScheduleFilterContext.AppendEach | ui/src/contexts/ScheduleFilterContext.jsx:44 | the `forEach` loop appends one entry per value, in order |
| ScheduleFilterContext.ScheduleFilterProvider.SelectedCampuses | ui/src/contexts/ScheduleFilterContext.jsx:30-33 | the selected campuses are the URL's values in order, or the three default campuses; never empty |
| ScheduleFilterContext.ScheduleFilterProvider.SelectedTimes | ui/src/contexts/ScheduleFilterContext.jsx:35-38 | the selected times are the URL's values in order, or the three default times; never empty |
| ScheduleFilterContext.ScheduleFilterProvider.InitDefaults | ui/src/contexts/ScheduleFilterContext.jsx:10-27 | writes iff a key has no entry; the new query string is the old one with the missing defaults appended; both filters read as before |
| ScheduleFilterContext.ScheduleFilterProvider.HandleCampusChange | ui/src/contexts/ScheduleFilterContext.jsx:41-46 | the query string becomes delete-campuses-then-append; the campuses read back as given (defaults when empty); the times are unchanged |
| ScheduleFilterContext.ScheduleFilterProvider.HandleTimeChange | ui/src/contexts/ScheduleFilterContext.jsx:48-53 | the query string becomes delete-times-then-append; the times read back as given (defaults when empty); the campuses are unchanged |
| FilterPanel.RemoveAll | ui/src/components/FilterPanel.jsx:12 | the filter leaves no occurrence of the value, keeps the count of every other element, and keeps their order |
| FilterPanel.Toggle | ui/src/components/FilterPanel.jsx:10-24 | toggling flips the value's membership and leaves every other value's membership alone |
| FilterPanel.ToggleCampus | ui/src/components/FilterPanel.jsx:10-16 | an absent campus is appended at the end; a present one is removed everywhere, with the rest kept in order and count; membership flips |
| FilterPanel.ToggleTime | ui/src/components/FilterPanel.jsx:18-24 | the same append, remove-all and flip properties for times |
| FilterPanel.ToggleTwiceRestores | ui/src/components/FilterPanel.jsx:10-16 | toggling an absent value twice restores the original list |
| FilterPanel.ToggleCampusAndTimeTwice | ui/src/components/FilterPanel.jsx:18-24 | both handlers restore the list when an absent value is toggled twice |
| FilterPanel.UncheckingLastCampusSelectsAll | ui/src/components/FilterPanel.jsx:11-12 | unchecking the only selected campus encodes an empty list, which reads back as all default campuses |

## Left out

- `load_sections` (app/main.py:43-86) is left out. It is database plumbing: a pandas `read_sql`, `groupby`/`iterrows` and NaN-to-None conversion. Sections enter the model as values.
- `write_schedules_to_db` and `main` (app/main.py:172-219) are left out. They are SQL inserts, transactions and printing.
- Scheduler.ComputeScheduleSummary: `instructorScore` is the exact mean of the known ratings as a real number. Python's float division and `round(.., 2)` are not modelled. Only the "None when no section has a rating" case is stated.
- Scheduler.GenerateSchedules: `itertools.product` is modelled as the eager list `Product(pools)`, not as a lazy iterator. Sections are compared as values, so Python's object identity is not modelled.
- Scheduler.Meeting: `datetime.time` values are integer seconds since midnight. Only their order is used.
- Card.FormatTime requires the hours field (the text before the first colon) to be a decimal digit string whose value is at most 2^53 - 1, as the hours 0 to 23 that the server sends are. Above that value `parseInt` rounds to a double (or gives `Infinity`), so the shown hour need not agree with the digits modulo 12; those hours are not modelled. `parseInt` also skips leading whitespace and a sign, and it can return NaN; those cases are not modelled either. A string with no colon is modelled: its minutes show as "undefined", as the template does.
- SectionCard.FormatTime has the same requirement on the hours field, including the 2^53 - 1 bound, for the same reason.
- ScheduleFilterContext.ScheduleFilterProvider.InitDefaults is modelled as a method that callers run once. React's effect scheduling (the empty dependency list) is not modelled.
- The `{ replace: true }` option (a browser-history detail) is not modelled.
- `setSearchParams` is modelled as assigning the provider's query string. Re-rendering and memoisation are not modelled.
- Selections are ordered lists, as the URL holds them. Duplicates are kept; they are not sets.
- Query strings are modelled as name/value entries. Percent-encoding and the URL text itself are not modelled.
- `app/app.py` (FastAPI endpoints), `app/models.py` (configuration), `app/utilities.py` and `app/utils/helpers.py` (file reads, the clock, `strptime`) are not part of this model.
- `ui/src/api/client.js` only wraps `fetch` over HTTP, so it is not part of this model.
- React rendering is not part of this model: Card's random rotation and hover state, Navbar, Error, Loading, Checkboxes, App, card.jsx and main.jsx.
- `FavoritesContext.jsx` is not part of this model. It holds a single boolean state with nothing to verify.
