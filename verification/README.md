# Event manager state, verified

A Dafny model of the state held by the single `App` component of an event-management
single-page application (`src/App.tsx`). The component keeps an ordered list of events,
a form draft, three modal flags (create, edit, delete confirmation), the event currently
selected for editing or deletion, a search term with a status filter, and a list of toast
notifications. Every user action runs one handler that updates that state synchronously.

The model has six modules:

- `Lists`: `Filter` and `Map`, the `Array.prototype.filter` and `map` the handlers apply.
  Lemmas cover order preservation (`IsSubsequence`), exact multiplicities, idempotence,
  identity when every element passes, and appending.
- `Text`: ASCII `toLowerCase` (`Lower`, with `LowerEqualIffSameIgnoringCase` tying it to equality up to case), `includes` (`Contains`, with its specification
  `ContainsSpec`), and `Date.now().toString()` (`DecimalString`). `DecimalString` is
  proved injective through the `ParseDecimal` round trip.
- `Events`: the `Event` record and the form draft, the record a save builds
  (`SavedEvent`), the edit-mode replacement (`ReplaceById`, a `map`) and the delete
  (`RemoveById`, a `filter`), with lemmas on lengths, absent ids and id uniqueness.
- `ViewFilter`: `filteredEvents` as a pure function, with its order, multiplicity,
  show-all, idempotence and case-insensitivity lemmas.
- `Toasts`: toast records, the timer's removal, and the push/expire round trip.
- `AppModel`: class `App`, whose fields are the component's state variables and whose
  methods are its handlers. Each method states the whole new state. Its `modifies`
  clause names only the fields the handler sets, so every other field is unchanged by
  construction. Client methods (`CreateScenario`, `EmptyDraftScenario`, and others)
  drive a fresh `App` through a run of user actions and state the outcome.

Time is a parameter. `Date.now()` is passed in as `now`. The save handler reads the clock
twice, once for the new record's id (line 153) and once for the toast (line 104), so it
takes `now` and `toastNow`. A toast timer firing is the explicit step `App.ExpireToast(id)`.

The code does not guarantee the following; the model follows the code:

- Ids are not guaranteed unique. Cancelling the create/edit form does not clear
  `selectedEvent`, so a later create-mode save reuses that event's id and attendee
  count. `AppModel.StaleSelectionScenario` and `Events.AppendTakenIdDuplicates` prove
  the duplicate. `Events.AppendFreshKeepsUnique` proves that a fresh id keeps ids unique.
- Updating or deleting an id that is not stored is not an error. `map` and `filter`
  change nothing (`Events.ReplaceByIdAbsent`, `Events.RemoveByIdAbsent`), and
  `confirmDelete` with nothing selected is a no-op.
- Toast ids are bare millisecond timestamps with no disambiguation. Two toasts pushed in
  the same millisecond share an id, and the first timer removes both
  (`Toasts.SameMillisecondToastsExpireTogether`).
- An edit-mode save replaces every event carrying the selected id, not just one. The
  replacement record has no `banner`, because it is built from the draft.
- When the edit flag is up but nothing is selected, the save takes the create branch.
  That branch lowers only the create flag.

## Model

| member | source | states |
|---|---|---|
| `Lists.Filter` | src/App.tsx:180-185 | Filtering keeps exactly the passing elements and never grows the list. Every kept element is in the input and passes; every passing input element is kept. |
| `Lists.Map` | src/App.tsx:158 | Mapping keeps the length, and element `i` becomes `f(s[i])`. |
| `Lists.FilterIsSubsequence` | src/App.tsx:180-185 | A filter result is an order-preserving subsequence of its input. |
| `Lists.FilterCounts` | src/App.tsx:180-185 | A filter keeps every copy of a passing element and drops every copy of a failing one (multiset counts). |
| `Lists.FilterAllPass` | src/App.tsx:180-185 | If every element passes, the filter returns its input unchanged. |
| `Lists.FilterIdempotent` | src/App.tsx:180-185 | Filtering twice with the same predicate equals filtering once. |
| `Lists.FilterAppend` | src/App.tsx:105-107 | Filtering `s + [x]` is filtering `s`, then adding `x` if it passes. |
| `Text.Lower` | src/App.tsx:181-182 | `toLowerCase` keeps the length. Each of 'A'..'Z' becomes the matching letter of 'a'..'z', every other character is kept, and no upper-case ASCII letter remains. |
| `Text.LowerCharIffSameCharIgnoringCase` | src/App.tsx:181-182 | Two characters lower-case to the same character exactly when they are equal up to ASCII case. |
| `Text.LowerEqualIffSameIgnoringCase` | src/App.tsx:181-182 | Two strings lower-case to the same string exactly when they are equal up to ASCII case (a relation defined character by character, without `Lower`). |
| `Text.LowerIdempotent` | src/App.tsx:181-182 | Lower-casing twice equals lower-casing once. |
| `Text.Contains` | src/App.tsx:181-182 | `includes`: the empty term is included in every string, and a term longer than the string never is. |
| `Text.ContainsSpec` | src/App.tsx:181-182 | `includes` holds exactly when the term occurs at some index of the string. |
| `Text.ContainsSelf` | src/App.tsx:181 | Every string includes itself. |
| `Text.DecimalString` | src/App.tsx:104 | A timestamp renders as a non-empty string of decimal digits with no leading zero. |
| `Text.DecimalRoundTrip` | src/App.tsx:104 | Parsing the rendered timestamp gives the timestamp back. |
| `Text.DecimalStringInjective` | src/App.tsx:104 | Distinct timestamps give distinct ids. |
| `Events.RequiredFieldsFilled` | src/App.tsx:146 | The save guard passes exactly when none of name, date, time and location is the empty string. |
| `Events.FormOf` | src/App.tsx:129-136 | The edit draft copies the event's editable fields; it passes the save guard exactly when the event's name, date, time and location are non-empty. |
| `Events.SavedId` | src/App.tsx:153 | The id fallback of `selectedEvent?.id` to `Date.now()`: never empty; the timestamp with nothing selected; the selected id when that id is non-empty. |
| `Events.SavedAttendees` | src/App.tsx:154 | The attendee fallback of `selectedEvent?.attendees` to 0: 0 with nothing selected, otherwise the selected event's attendees. |
| `Events.SavedEvent` | src/App.tsx:151-155 | The saved record carries the draft's six fields (opening it for editing gives the draft back), a non-empty id, the id and attendees above (timestamp id and 0 attendees with nothing selected), and no banner. |
| `Events.EditRoundTrip` | src/App.tsx:127-158 | Opening an event for editing and saving the unchanged draft gives back the same event, except that its banner is dropped. |
| `Events.RemoveById` | src/App.tsx:173 | After a delete, no event carries the id, every survivor was stored, and every event with another id survives. |
| `Events.ReplaceById` | src/App.tsx:158 | The edit replacement keeps the length. Positions carrying the id hold the new record; all other positions are untouched. |
| `Events.RemoveByIdIsSubsequence` | src/App.tsx:173 | A delete keeps the survivors in their original order. |
| `Events.RemoveByIdLength` | src/App.tsx:173 | A delete shortens the list by exactly the number of events carrying the id. |
| `Events.RemoveByIdAbsent` | src/App.tsx:173 | Deleting an id nobody carries changes nothing. |
| `Events.RemoveByIdTwice` | src/App.tsx:171-178 | A second delete of the same id changes nothing. No event carries the id after the first. |
| `Events.CountIdUnique` | src/App.tsx:173 | With unique ids, an id is carried by one event if present and by none otherwise. |
| `Events.RemoveByIdUnique` | src/App.tsx:173 | With unique ids, deleting a present id removes exactly one event. |
| `Events.RemoveByIdKeepsUnique` | src/App.tsx:173 | A delete keeps ids unique. |
| `Events.ReplaceByIdKeepsIds` | src/App.tsx:151-158 | Replacing with a record of the same id keeps every position's id, and so keeps ids unique. |
| `Events.ReplaceByIdAbsent` | src/App.tsx:158 | Replacing an id nobody carries changes nothing. |
| `Events.AppendFreshKeepsUnique` | src/App.tsx:162 | Appending a record with a new id keeps ids unique. |
| `Events.AppendTakenIdDuplicates` | src/App.tsx:151-165 | Appending a record that reuses a stored id breaks uniqueness: the id is then carried at least twice. |
| `ViewFilter.MatchesSearch` | src/App.tsx:181-182 | The search test: the empty term matches every event, a name or location equal to the term up to ASCII case matches, and a match needs a name or location at least as long as the term. |
| `ViewFilter.MatchesStatus` | src/App.tsx:183 | `'all'` passes every event; any other filter passes exactly the events with that status. |
| `ViewFilter.FilterEvents` | src/App.tsx:180-185 | Every shown event is stored and matches the search and status tests. Every stored event matching both is shown. |
| `ViewFilter.FilterEventsOrder` | src/App.tsx:180-185 | The view is an order-preserving subsequence of the list. Each matching event appears as often as it is stored; non-matching events never appear. |
| `ViewFilter.FilterEventsShowAll` | src/App.tsx:180-185 | An empty search with `'all'` shows every event in storage order. |
| `ViewFilter.FilterEventsIdempotent` | src/App.tsx:180-185 | Filtering the view again with the same parameters changes nothing. |
| `ViewFilter.FilterEventsIgnoresCase` | src/App.tsx:181-182 | Searching for the lower-cased term shows the same events as the term itself. |
| `ViewFilter.FilterEventsCaseVariants` | src/App.tsx:181-182 | Search terms that differ only in ASCII case show the same events. |
| `ViewFilter.NameMatchShown` | src/App.tsx:181-183 | An event is shown when its name equals the search term up to ASCII case and the status filter admits it. |
| `Toasts.NewToast` | src/App.tsx:104-105 | The new toast keeps the message and kind; its id is a non-empty digit string that reads back as the push time. |
| `Toasts.RemoveToasts` | src/App.tsx:107 | After expiry, no toast carries the id, every survivor was queued, and every toast with another id survives. |
| `Toasts.RemoveToastsKeepsOthers` | src/App.tsx:107 | Expiry keeps the other toasts in order, each with its multiplicity. |
| `Toasts.RemoveToastsAbsent` | src/App.tsx:107 | Expiring an id no toast carries changes nothing. |
| `Toasts.PushThenExpire` | src/App.tsx:103-108 | Pushing a toast with a new id and then expiring it restores the queue. |
| `Toasts.SameMillisecondToastsExpireTogether` | src/App.tsx:104-107 | Two toasts pushed in the same millisecond are both gone after one expiry. |
| `Toasts.DistinctTimesExpireSeparately` | src/App.tsx:104-107 | A toast pushed at a different time survives another toast's expiry. |
| `AppModel.App.constructor` | src/App.tsx:41-97 | Initial state: the given events, no toasts, the empty draft, nothing selected, every modal closed, empty search, filter `'all'`. |
| `AppModel.App.FilteredEvents` | src/App.tsx:180-185 | The shown events are the stored events matching the current search term and status filter, and all of them. |
| `AppModel.App.ShowToast` | src/App.tsx:103-105 | Appends exactly one toast `(now, message, kind)` at the end; nothing else changes. |
| `AppModel.App.ExpireToast` | src/App.tsx:106-108 | Removes exactly the toasts carrying the id and keeps the others in order. With the id absent, nothing changes. |
| `AppModel.App.ResetForm` | src/App.tsx:111-120 | The draft becomes empty with status `'upcoming'`. |
| `AppModel.App.HandleCreate` | src/App.tsx:122-125 | Opens the create form on the empty draft. The selection and the list are untouched. |
| `AppModel.App.HandleEdit` | src/App.tsx:127-138 | Copies the event's six editable fields into the draft, selects it, and opens the edit form. The list is untouched. |
| `AppModel.App.HandleDelete` | src/App.tsx:140-143 | Selects the event and opens the delete confirmation. |
| `AppModel.App.CloseForm` | src/App.tsx:434-438 | Closes both form modals and resets the draft, keeping the selection. The close button at lines 345-349 does the same. |
| `AppModel.App.CancelDelete` | src/App.tsx:469-472 | Closes the delete confirmation and clears the selection. |
| `AppModel.App.SetName` | src/App.tsx:362 | Overwrites the draft's name only. |
| `AppModel.App.SetDate` | src/App.tsx:374 | Overwrites the draft's date only. |
| `AppModel.App.SetTime` | src/App.tsx:383 | Overwrites the draft's time only. |
| `AppModel.App.SetLocation` | src/App.tsx:394 | Overwrites the draft's location only. |
| `AppModel.App.SetStatus` | src/App.tsx:404 | Overwrites the draft's status only. |
| `AppModel.App.SetDescription` | src/App.tsx:417 | Overwrites the draft's description only. |
| `AppModel.App.SetSearchTerm` | src/App.tsx:237 | Sets the search term. |
| `AppModel.App.SetFilterStatus` | src/App.tsx:245 | Sets the status filter. |
| `AppModel.App.HandleSaveEvent` | src/App.tsx:145-169 | With a required field missing: only one error toast is appended. In edit mode: positions carrying the selected id get the draft's fields, that id and the selected attendees; the rest stay in place, and the edit flag goes down. Otherwise the record is appended at the end (id `now`, 0 attendees when nothing is selected) and the create flag goes down. After any valid save: empty draft, nothing selected, one success toast. |
| `AppModel.App.ConfirmDelete` | src/App.tsx:171-178 | With a selection: removes exactly the events carrying its id, keeps the rest in order, appends a success toast, closes the confirmation and clears the selection. With none, nothing changes. |
| `AppModel.CreateScenario` | src/App.tsx:145-168 | Create on a fresh component: one more event at the end with id `now` and 0 attendees, earlier events unchanged, a success toast, and the form closed. |
| `AppModel.EmptyDraftScenario` | src/App.tsx:145-149 | Saving the empty draft leaves the list unchanged, queues one error toast, and keeps the create form open. |
| `AppModel.EditStatusScenario` | src/App.tsx:127-169 | Edit, set status `'completed'`, save: events carrying the id become the edited event with status `'completed'` (and no banner). All other events are unchanged and the edit form closes. |
| `AppModel.DeleteTwiceScenario` | src/App.tsx:140-178 | With unique ids, deleting a stored event removes exactly one event. Confirming again, or deleting the same event again, changes nothing. |
| `AppModel.StaleSelectionScenario` | src/App.tsx:145-169 | Edit, cancel, then create: the new event reuses the cancelled event's id and attendees, so the id is carried twice. |
| `AppModel.ToastExpiryScenario` | src/App.tsx:103-108 | A pushed toast is gone once its timer fires. |

## Left out

- The JSX markup, CSS class strings, animations, the icons and `pageLoaded`/`useEffect`. They are presentation only.
- `getStatusColor`, the date formatting with `toLocaleDateString` and the capitalised status label. They are rendering and locale library calls.
- Real time. `Date.now()` is a parameter. `setTimeout` is the explicit step `App.ExpireToast`, which can be called at any point. The 4000 ms delay is not modelled.
- React's scheduling and batching. Each handler's setter calls are one atomic update.
- The three hard-coded starting events. The constructor takes the starting list as a parameter.
- Text.Lower: lower-cases ASCII letters only. JavaScript's `toLowerCase` also maps non-ASCII letters, and those stay unchanged here.
- Strings are sequences of characters. UTF-16 surrogate pairs are not distinguished.
- `attendees` is an unbounded integer. JavaScript numbers that are fractional or NaN are not modelled. For integers, `|| 0` has no effect.
