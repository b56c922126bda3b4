# Date picker core, modelled in Dafny

This project models the logic of a Japanese-localised Vue 3 date-picker widget. The model leaves out the widget's UI, DOM and framework layers. What remains is four small pieces:

- **Calendar grid generation** (`generateCalendarDates`). Given a year and a 0-based month, it lists the month's days. It prepends days of the previous month back to the Sunday on or before the 1st, and appends days of the next month up to the Saturday on or after the last day. Dates are integer day numbers counted from 1 January 1970 (`Civil`). The weekday is `getDay`, with 0 for Sunday. `new Date(year, month)` is resolved as ECMA-262 prescribes for the Date constructor: years 0..99 mean 1900..1999, an out-of-range month carries into the year, and New Year's days come from DayFromYear (`Civil.Resolve`, `Civil.StartOfMonth`). The grid is built by the function's two padding loops (`Calendar.GenerateCalendarDates`). Lemmas cover contiguity, the Sunday start, the Saturday end, the month embedded intact, and a length of 28..42 that is a multiple of 7. Chunked by seven, the grid gives week rows of exactly seven days.
- **String conversions** (`formatDateToString`, `parseDateString`, `getPeriodFromValue`, `valueToInputFormat`). The date library's `parse`, `format` and `isValid`, and the `Date` accessors `getMonth` and `getFullYear`, are a parameter (`DateStrings.DateLib`) over an opaque date type. The current time is a parameter `now`. What is verified is the fallback behaviour this layer adds: the empty string stands for "no date", and an invalid result falls back.
- **Range and chunking** (`range`, `chunkArray`), as sequence operations. `chunkArray` is checked against the reference chunking (`Utils.Chunks`, the same take-then-drop steps written recursively) and against an independent contract that determines the result uniquely (`Utils.IsChunking` with `Utils.ChunkingIsUnique`).
- **The open/closed toggle** (`useToggle`) and **the outside-interaction listener** (`useCloseEventListener`). Both are immutable state records with pure transitions. The listener's document registry is a set of (event name, handler id) pairs. Each newly created handler closure gets a fresh id. The handler's close decision is a pure function of the event's key, the event's target, the anchor element and a containment relation.

Three facts about the code shape the model:
- `useToggle` starts at the caller's `initialValue`.
- `valueToInputFormat` returns the raw value when `format` yields `''` for a valid date, because `'' || value` is `value`.
- Formatting and then parsing gives a valid date back exactly when the date library itself round-trips that date. `DateStrings.ParseOfFormat` states both directions.

## Model

| member | source | states |
|---|---|---|
| Utils.Range | src/components/DatePicker/utils.ts:25-32 | The result has `end - start + 1` elements when `start <= end` and none otherwise. Element `i` is `start + i`. It contains exactly the integers from `start` to `end`, is strictly increasing, and begins at `start` and ends at `end` when non-empty. |
| Utils.ChunkArray | src/components/DatePicker/utils.ts:8-16 | The input is fully consumed. The chunks concatenate back to the input. Every chunk but the last has exactly `chunkSize` elements, and the last is non-empty and at most `chunkSize` long. An empty input gives no chunks. The result equals the reference chunking. A `chunkSize` below 1 is excluded only for non-empty input, which the source would never finish. |
| Utils.ChunksIsChunking | src/components/DatePicker/utils.ts:11-13 | The reference take-then-recurse chunking meets the chunking contract: it flattens back to the input, and its groups are full except for a non-empty last one. |
| Utils.ChunkingIsUnique | src/components/DatePicker/utils.ts:8-16 | Any split that meets the chunking contract is the reference chunking, so the contract fully determines what `chunkArray` returns. |
| Utils.ChunksOfMultiple | src/components/DatePicker/utils.ts:11-13 | An input of `k * size` elements splits into exactly `k` chunks, each of exactly `size` elements, chunk `r` holding elements `size * r` to `size * r + size - 1`. |
| Civil.Resolve | src/components/DatePicker/composables/useDateUtilities.ts:19 | `new Date(year, month)` resolves to a month in 0..11 whose absolute month index equals the full year's index plus `month`. The full year maps 0..99 to 1900..1999. |
| Civil.MonthLength | src/components/DatePicker/composables/useDateUtilities.ts:20 | Every month that `new Date(year, month)` can land in has 28 to 31 days. |
| Civil.Weekday | src/components/DatePicker/composables/useDateUtilities.ts:24 | `getDay` gives 0 (Sunday) to 6 (Saturday), and day 0, 1 January 1970, is a Thursday (4). |
| Civil.StartOfMonth | src/components/DatePicker/composables/useDateUtilities.ts:19 | The first day of the resolved month lies in the resolved year, and the whole month fits before the next New Year's day. January begins on New Year's day. |
| Civil.EndOfMonth | src/components/DatePicker/composables/useDateUtilities.ts:20 | `endOfMonth` is the day before the first of the following month, which is also the month's length minus one day after `startOfMonth`. |
| Civil.MonthsTile | src/components/DatePicker/composables/useDateUtilities.ts:19-20 | Each month starts its length in days after the previous month started, across year boundaries too. So the days before the 1st belong to the previous month and those after the last day to the next month. |
| Civil.YearStep | src/components/DatePicker/composables/useDateUtilities.ts:19 | Consecutive New Year's days are 366 days apart in a Gregorian leap year and 365 otherwise. |
| Civil.WeekdaySucc | src/components/DatePicker/composables/useDateUtilities.ts:24 | The weekday `getDay` reports advances by one each day, wrapping from Saturday (6) to Sunday (0). |
| Civil.May2024 | src/components/DatePicker/composables/useDateUtilities.ts:19-24 | 1 May 2024 is day 19844 and a Wednesday (`getDay` 3), and the month has 31 days. |
| Civil.February2024 | src/components/DatePicker/composables/useDateUtilities.ts:19-24 | February 2024 has 29 days and starts on a Thursday. `new Date(24, 1)` is February 1924. |
| Calendar.GenerateCalendarDates | src/components/DatePicker/composables/useDateUtilities.ts:18-36 | The array built by the unshift loop and the push loop is the interval from `getDay(start)` days before the 1st to `6 - getDay(end)` days after the last day. Its length is the leading padding plus the month length plus the trailing padding. The month's days sit at indices starting at `getDay(start)`. |
| Calendar.EachDay | src/components/DatePicker/composables/useDateUtilities.ts:21 | `eachDayOfInterval` lists `last - first + 1` days when `first <= last` and none otherwise, day `i` being `first + i`. |
| Calendar.PadToWeeks | src/components/DatePicker/composables/useDateUtilities.ts:21-33 | For a month running from `start` to `end`, the two padding loops turn `eachDayOfInterval(start, end)` into the interval from the Sunday on or before `start` to the Saturday on or after `end`. That is `getDay(start)` extra days in front and `6 - getDay(end)` behind, with the month's days from index `getDay(start)` on. |
| Calendar.GridContiguous | src/components/DatePicker/composables/useDateUtilities.ts:21-33 | Each cell of the grid is the previous cell plus one day, so the grid is strictly increasing and has no repeated day. |
| Calendar.GridStartsOnSunday | src/components/DatePicker/composables/useDateUtilities.ts:24-27 | The first cell is `getDay(start)` days before the 1st and falls on a Sunday. |
| Calendar.GridEndsOnSaturday | src/components/DatePicker/composables/useDateUtilities.ts:30-33 | The last cell is `6 - getDay(end)` days after the month's last day and falls on a Saturday. |
| Calendar.GridEmbedsMonth | src/components/DatePicker/composables/useDateUtilities.ts:19-33 | The month's days appear in order from index `getDay(start)` on, and that slice is exactly `eachDayOfInterval(start, end)`. Cells before it are earlier days and cells after it later days. Every day of the month is in the grid. |
| Calendar.GridEmbeds | src/components/DatePicker/composables/useDateUtilities.ts:21-33 | For any month start and length, the padded interval holds the month's days in order from index `getDay(start)` on, and that slice is exactly `eachDayOfInterval(start, end)`. Only earlier days come before it and only later days after it. |
| Calendar.GridPaddingFromAdjacentMonths | src/components/DatePicker/composables/useDateUtilities.ts:23-33 | The leading cells lie within the previous month and the trailing cells within the next month. |
| Calendar.GridLength | src/components/DatePicker/composables/useDateUtilities.ts:19-33 | The grid length is a multiple of 7 between 28 and 42. |
| Calendar.GridWeekRows | src/components/DatePicker/composables/useDateUtilities.ts:18-36 | Chunked by 7, the grid gives 4 to 6 rows that concatenate back to it. Each row is seven consecutive days from a Sunday to a Saturday. |
| DateStrings.FormatDateToString | src/components/DatePicker/composables/useDateUtilities.ts:45-47 | No date (`''`) formats to `''`. A date formats to the library's rendering in the display format. |
| DateStrings.ParseDateString | src/components/DatePicker/composables/useDateUtilities.ts:56-61 | An absent or empty string gives no date. Otherwise the result is a date exactly when the library's parse result is valid, and that date is the parse result unchanged. A returned date is always valid. |
| DateStrings.GetPeriodFromValue | src/components/DatePicker/composables/useDateUtilities.ts:69-73 | The result is the month and year of the parsed date when the value parses to a valid date. For an empty value or an invalid parse it is the month and year of `now`. |
| DateStrings.ValueToInputFormat | src/components/DatePicker/composables/useDateUtilities.ts:81-83 | `''` stays `''`. A value that does not parse comes back unchanged. A value that parses comes back as the library's rendering of the parsed date, unless that rendering is empty. The result is always either the raw value or that non-empty rendering. |
| DateStrings.ParseOfFormat | src/components/DatePicker/composables/useDateUtilities.ts:45-61 | Parsing the formatted text of a valid date gives the same date back exactly when the library round-trips that date: the rendering is non-empty and parses back to the date. |
| DateStrings.ValueToInputFormatIdempotent | src/components/DatePicker/composables/useDateUtilities.ts:81-83 | Normalising an input value twice gives the same result as normalising it once, provided the library reads the parsed date's rendering back to the same rendering. |
| Toggle.UseToggle | src/components/DatePicker/composables/useToggle.ts:3-4 | The flag starts at `initialValue`. |
| Toggle.Toggle | src/components/DatePicker/composables/useToggle.ts:6-8 | `toggle` negates the flag and always writes it. |
| Toggle.Open | src/components/DatePicker/composables/useToggle.ts:10-14 | After `open` the flag is set. It writes exactly when the flag was clear, and when it does not write the state is unchanged. |
| Toggle.Close | src/components/DatePicker/composables/useToggle.ts:16-20 | After `close` the flag is clear. It writes exactly when the flag was set, and when it does not write the state is unchanged. |
| Toggle.ToggleTwice | src/components/DatePicker/composables/useToggle.ts:6-8 | Toggling twice restores the original state. |
| Toggle.OpenIdempotent | src/components/DatePicker/composables/useToggle.ts:10-14 | A second `open` writes nothing and leaves the state as the first one left it. |
| Toggle.CloseIdempotent | src/components/DatePicker/composables/useToggle.ts:16-20 | A second `close` writes nothing and leaves the state as the first one left it. |
| Toggle.WriteIffChange | src/components/DatePicker/composables/useToggle.ts:6-20 | Each of the three operations writes the flag exactly when it changes the state. |
| Toggle.RunParity | src/components/DatePicker/composables/useToggle.ts:6-20 | After any sequence of operations, the flag differs from its start exactly when an odd number of writes happened. |
| Toggle.RepeatedOpenWritesOnce | src/components/DatePicker/composables/useToggle.ts:10-14 | From closed, one or more `open` calls leave the picker open after exactly one write. |
| Toggle.CloseOnFreshIsNoop | src/components/DatePicker/composables/useToggle.ts:16-20 | `close` on a toggle created closed writes nothing and changes nothing. |
| CloseListener.Init | src/DatePicker/composables/useCloseEventListener.ts:10 | The composable starts with no stored handler and nothing registered, and the registration invariant holds. |
| CloseListener.AddCloseEvents | src/DatePicker/composables/useCloseEventListener.ts:12-28 | With no stored handler, a fresh handler is stored and registered for `click`, `keyup` and `focusin`. With a stored handler the state is unchanged. The registration invariant is preserved. |
| CloseListener.RemoveCloseEvents | src/DatePicker/composables/useCloseEventListener.ts:30-38 | With a stored handler, its three registrations are removed and the reference is cleared, leaving nothing registered. With none stored the state is unchanged. The invariant is preserved. |
| CloseListener.Teardown | src/DatePicker/composables/useCloseEventListener.ts:40 | Unmounting leaves no handler stored and nothing registered. |
| CloseListener.AddRegistersThreeEvents | src/DatePicker/composables/useCloseEventListener.ts:13-26 | From the unregistered state, adding registers exactly the events `click`, `keyup` and `focusin`, all to the one stored handler. |
| CloseListener.AtMostOneHandlerPerEvent | src/DatePicker/composables/useCloseEventListener.ts:13-27 | Under the registration invariant each event name has the stored handler if it is one of the three events and no handler otherwise. So no event is ever registered twice. |
| CloseListener.AddIdempotent | src/DatePicker/composables/useCloseEventListener.ts:13 | Adding twice equals adding once. |
| CloseListener.RemoveIdempotent | src/DatePicker/composables/useCloseEventListener.ts:31 | Removing twice equals removing once. |
| CloseListener.AddAfterRemove | src/DatePicker/composables/useCloseEventListener.ts:12-37 | After add, remove and add, the same three events are registered, now to a new handler, just as after the first add. |
| CloseListener.CallsKeepValid | src/DatePicker/composables/useCloseEventListener.ts:12-40 | Every sequence of add, remove and unmount calls keeps the registration invariant. After a final remove or unmount nothing is registered. |
| CloseListener.CloseCalls | src/DatePicker/composables/useCloseEventListener.ts:14-23 | The handler calls `close` at most once per event. With a non-empty key it closes exactly when the key is `Escape`, whatever the target. Without a key it closes exactly when the target is neither the anchor element nor inside it. |
| CloseListener.RegisteredDispatch | src/DatePicker/composables/useCloseEventListener.ts:14-26 | While registered: a click outside the anchor closes exactly once and a click inside does not close. Escape on key-up closes once. Any other key never closes. Events other than the three never reach the handler. |
| CloseListener.RemovedDispatch | src/DatePicker/composables/useCloseEventListener.ts:30-40 | After removal or unmount, no event calls `close`. |
| CloseListener.DispatchThenClose | src/DatePicker/composables/useCloseEventListener.ts:14-23 | With the handler wired to the toggle's `close`, an event the handler acts on leaves the picker closed with at most one write, and exactly one if it was open. An ignored event leaves the toggle untouched. |

## Left out

- The date library's token parsing and formatting and its `isValid`, and the native `Date` accessors `getMonth` and `getFullYear` in local time. They are parameters of every string conversion (`DateStrings.DateLib`), because their semantics belong to the library and not to this code. The re-exported `isToday` and `isSameDay` are library functions with no logic here.
- DateStrings.FormatDateToString: the library's `format` throws a RangeError on an invalid date. The model treats `format` as total, and `parseDateString` only ever yields valid dates.
- Calendar.EachDay: returns no days for a reversed interval (`first > last`), where date-fns's `eachDayOfInterval` throws a RangeError in version 2 and lists the days in reverse from version 3 on. `generateCalendarDates` never passes such an interval, since `startOfMonth` precedes `endOfMonth`.
- The clock. `now` is a parameter. `getPeriodFromValue` reads the clock up to twice: twice when a non-empty value fails to parse (once as the parse reference date, once as the fallback), once for an empty value or a valid parse. The model uses a single reading for all of them.
- Time zones and daylight saving. The model works on whole local days.
- Time of day. The leading cells and the month's cells are local midnights. The trailing padding cells are `addDays(end, i + 1)` with `end` from `endOfMonth`, so they carry `endOfMonth`'s 23:59:59.999. The model keeps only the day number.
- Dates outside the JavaScript Date range of ±100,000,000 days from 1970, where `new Date` gives an Invalid Date. Years and months are unbounded integers here.
- Non-integer JavaScript numbers passed as `year`, `month`, `start`, `end` or `chunkSize`. The model takes integers.
- Vue reactivity. `ref` cells are plain state fields. The `onBeforeUnmount` hook is the explicit `CloseListener.Teardown`. The `isOpen` ref is handed back unchanged, and the handler never reads it.
- DOM event dispatch and propagation. `Node.contains` is a parameter relation. The document registry holds only this composable's entries; other listeners on the document are not modelled.
- `chunkArray`'s in-place consumption of the caller's array. It is modelled as the returned `remaining` sequence, which is always empty.
- The component types (`types.ts`, `index.d.ts`) and the build configuration (`vite.config.ts`), which carry no behaviour.
