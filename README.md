# Homework tracker: the subject store and its reminders

This project models the logic layer of a single-screen homework tracker
(`App.js`, a React Native component). The component keeps a list of
subjects. Each subject has an id, a name, a due date, a reminder date, a
"no limit" flag, a status (pending, unknown or submitted) and a submission
time. The model covers:

- the handlers that replace that list: add, confirmed delete, status
  update, confirmed reset-all and edit-save;
- the reminder check, which picks the unsubmitted subjects due within three
  days and raises a full-screen reminder;
- the countdown classifier `getTimeRemaining`.

Times are whole milliseconds (`int`). A JavaScript `Date` difference is an
integer number of milliseconds. The source's divisions by a day or an hour
and its `Math.ceil` become integer comparisons and integer ceiling division
(`Clock.CeilDiv`). Ghost reference definitions read the same expressions
with exact real division and the real ceiling. Lemmas prove that the integer
model equals them (`Clock.CeilDivIsCeiling`,
`TimeRemaining.GetTimeRemainingIsExact`, `Reminders.IsDueSoonIsExact`).

Layout:

- `wrappers.dfy`: `Option`, the model of `null`.
- `seqs.dfy`: `Array.filter` and `Array.map` as `Seqs.Filter` and `Seqs.Map`.
- `subjects.dfy`: the records and the invariants over them.
- `store.dfy`: each handler's new list as a function, with its properties.
- `clock.dfy`: time units and the ceiling.
- `time_remaining.dfy`: the countdown classifier.
- `reminders.dfy`: the due-soon filter.
- `tracker.dfy`: the component as the class `HomeworkTracker`. It holds
  `subjects`, `upcoming` and `showReminder`, and its methods reassign them
  with the store functions.

On these points the model follows the code as written:

- The add guard is `name && (dueDate || isNoLimit)`. The draft's `dueDate`
  is always a `Date` object (initialised with `new Date()`, and the date
  picker falls back to `new Date()`). So the guard reduces to "the name is
  not empty", and `Draft.dueDate` is a plain timestamp.
- Edit-save does not validate. An edited subject with an empty name is
  saved as it is.
- The reminder list is replaced only when the new list is non-empty. An
  empty check leaves both the list and the flag alone.
- `reminderDate` is stored but never read by the reminder check.

## Model

| member | source | states |
|---|---|---|
| Seqs.Filter | App.js:58-65 | The result is no longer than the input; each kept element is in the input and satisfies the predicate; each input element that satisfies it is kept |
| Seqs.Map | App.js:112-116 | Same length as the input; position i holds f applied to input position i |
| Seqs.FilterAppend | App.js:105 | Filtering a concatenation is the concatenation of the filtered parts, so filtering keeps the input order |
| Seqs.FilterKeepsAll | App.js:105 | A filter returns its input unchanged iff every element satisfies the predicate |
| Seqs.FilterDropsAll | App.js:67 | A filter returns the empty list iff no element satisfies the predicate |
| Store.MaxId | App.js:81 | `Math.max` of the ids of a non-empty list: no id exceeds it and some record has it |
| Store.NextId | App.js:81 | The new id is above every existing id; it is 1 for an empty list and max+1 otherwise |
| Store.Add | App.js:79-96 | An empty name leaves the list unchanged. Otherwise exactly one record is appended after the unchanged old list: id NextId, the draft's name, dates and flag, status Pending, no submission time |
| Store.AddKeepsIdsUnique | App.js:81-87 | Adding keeps ids pairwise distinct, and the new id is strictly greater than every earlier one |
| Store.Delete | App.js:104-106 | No remaining record has the id; every remaining record comes from the input; every record with another id remains |
| Store.FilterKeepsIdsUnique | App.js:105 | A filtered list of records with distinct ids still has distinct ids |
| Store.DeleteKeepsIdsUnique | App.js:105 | Deleting keeps ids pairwise distinct |
| Store.DeleteRemovesOne | App.js:105 | With distinct ids, deleting the id at position k yields the list with exactly position k removed, the rest in order |
| Store.DeleteAbsent | App.js:105 | Deleting an id no record has leaves the list unchanged |
| Store.UpdateStatus | App.js:111-117 | Length and order are kept. A record with the id gets the given status and submission time. No other field of any record changes, and other records are untouched |
| Store.UpdateStatusAt | App.js:111-117 | With distinct ids, the update is a single in-place rewrite of the matching record's status and submission time |
| Store.SameIdsKeepUnique | App.js:112-116 | Two lists with the same ids position by position are both id-unique or both not |
| Store.UpdateStatusKeepsIdsUnique | App.js:111-117 | A status update keeps ids pairwise distinct |
| Store.UpdateStatusKeepsCoherent | App.js:386-419 | The three status buttons pass a time with submitted and null otherwise; such an update keeps "has a submission time iff submitted" true of every record |
| Store.ResetAll | App.js:125-131 | Length, order, ids, names, dates and flags are kept; every record becomes Pending with no submission time |
| Store.ResetAllSettles | App.js:126-130 | After a reset every record is coherent, and a second reset changes nothing |
| Store.ResetAllKeepsIdsUnique | App.js:126-130 | A reset keeps ids pairwise distinct |
| Store.SaveEdit | App.js:503-505 | Length and ids by position are kept; each record whose id matches the edited one becomes the edited record; the others are unchanged |
| Store.SaveEditAt | App.js:503-505 | With distinct ids, saving replaces exactly the position holding the edited id |
| Store.SaveEditAbsent | App.js:503-505 | Saving an edit whose id no record has leaves the list unchanged |
| Store.SaveEditKeepsInvariants | App.js:503-505 | Saving keeps ids distinct, and keeps records coherent when the edited record is coherent |
| Clock.CeilDiv | App.js:160-170 | The integer q with (q-1)*unit < a <= q*unit, the ceiling of a/unit |
| Clock.CeilUnique | App.js:160-170 | A number strictly above x-1 and not below x is the real ceiling of x |
| Clock.CeilDivIsCeiling | App.js:160-170 | Integer ceiling division equals `Math.ceil` of the exact real quotient |
| TimeRemaining.GetTimeRemaining | App.js:153-173 | None iff no-limit. When the remaining time is at most zero: Overdue, hours 0, days the ceiling of the overdue days, at least 0. Under one day left: Hours, days 0, hours the ceiling in 1..24. Otherwise: Days, hours 0, days the ceiling, at least 1 |
| TimeRemaining.GetTimeRemainingIsExact | App.js:153-173 | The integer classifier equals the classifier read with exact division and the real ceiling |
| TimeRemaining.Examples | App.js:153-173 | 30 minutes ahead gives 1 hour; 25 hours ahead gives 2 days; 10 hours late gives 1 day overdue |
| Reminders.DueSoon | App.js:58-65 | No longer than the subjects; each listed subject is one of them, has a limit, is not submitted and is due in (0, 3 days]; every such subject is listed |
| Reminders.IsDueSoonIsExact | App.js:59-64 | Comparing the millisecond difference with 0 and 3 days is exactly the source's test on fractional `daysLeft` |
| Reminders.DueSoonAppend | App.js:58-65 | The reminder list keeps the subjects' order: the list for a concatenation is the concatenation of the lists |
| Reminders.DueSoonEmpty | App.js:58-67 | The reminder list is empty iff no subject is due soon |
| Reminders.DueSoonCountdown | App.js:213-227 | At the check's own `now`, every due-soon subject's countdown is Hours or Days with at most 3 days, never Overdue |
| Tracker.HomeworkTracker.constructor | App.js:20-37 | The initial state: one pending sample subject with id 1, empty reminder list, no reminder; the invariant holds |
| Tracker.HomeworkTracker.AddSubject | App.js:79-96 | The subjects become Store.Add of the old ones; the reminder state is untouched; the invariant is kept |
| Tracker.HomeworkTracker.DeleteSubject | App.js:104-106 | The subjects become Store.Delete of the old ones; the reminder state is untouched; the invariant is kept |
| Tracker.HomeworkTracker.UpdateSubjectStatus | App.js:111-117 | The subjects become Store.UpdateStatus of the old ones. Ids stay distinct. The invariant is kept when the time accompanies exactly the submitted status |
| Tracker.HomeworkTracker.MarkAllAsPending | App.js:125-131 | The subjects become Store.ResetAll of the old ones; the reminder state is untouched; the invariant is kept |
| Tracker.HomeworkTracker.SaveEditedSubject | App.js:498-507 | The subjects become Store.SaveEdit of the old ones. Ids stay distinct. The invariant is kept for a coherent edit |
| Tracker.HomeworkTracker.CheckReminders | App.js:56-71 | Subjects unchanged. A non-empty due-soon list replaces `upcoming` and sets `showReminder`. An empty one leaves both as they were, so the flag is never cleared here |
| Tracker.HomeworkTracker.Acknowledge | App.js:238-240 | The reminder is hidden; subjects and the reminder list are unchanged |

## Left out

- Rendering, styling, theme and panel flags (`darkMode`, `showSettings`, `showAddForm`, `getStyles`, the JSX): presentation only.
- The confirmation dialogs (`Alert.alert`): foreign UI calls; only their confirm callbacks are modelled, as DeleteSubject and MarkAllAsPending.
- The `setInterval`/`clearInterval` timer and the effect that re-runs the check after every change of the subject list: scheduling. CheckReminders models one run at a given `now`. The caller decides when to run it after a handler.
- Clock reads (`new Date()`): the current time is a parameter (`now`, or `sd` for the submitted button).
- Resetting the add form's draft and closing the form after a successful add, and opening or closing the edit form: form state, not subject state.
- `formatDate`/`formatDateTime`: locale-dependent formatting.
- The date-picker glue (`openDatePicker`, `handleDateChange`): widget plumbing. It matters only in that it always stores a `Date`, which is why the add guard reduces to a non-empty name.
- The countdown colour (red when `days <= 3`): presentation.
- Floating point: JavaScript divides and rounds in IEEE doubles. The model and its exact-real reference use exact arithmetic. They agree with the doubles for realistic timestamps, but no proof covers double rounding.
- Reminders.DueSoonCountdown: holds only at the `now` of the check that built the list. The reminder screen reads the clock again when it renders, and a list kept from an earlier check stays on screen, so a listed subject can show as overdue there.
