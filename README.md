# Booking availability and range selection — a Dafny model

This project models the logic of the vehicle-booking page
`src/app/edit-view_booking/page.tsx`:

- the **booking filter** (vehicle lookup, category tab, name search) that the
  calendar, the day list and the occupied-date computation share;
- `getBookingsForDate` and the day list's re-filtering;
- the two **occupied-date sets**: `getAllBookedDates` for one year of the
  calendar view, and the edit view's `bookedDates` (every other booking of
  the vehicle under edit);
- the edit view's **two-click range selector** `handleDateClick`;
- the validation and record building of the edit view's `handleSave`, the
  form input handler and the delete prompt flags;
- `Home.handleSave`, which merges a saved booking into the collection by
  identifier.

Days are a `Date(year, month, day)` datatype; the subset type `Day` holds the
real calendar dates with a four-digit year. A date string is the day's
`Key`, "YYYY-MM-DD", which is both what `toISOString().slice(0, 10)` gives
and what the calendar grid builds with `padStart`. The occupied-date sets are
sets of such strings, as in the page. The page orders date strings with
JavaScript's `<`; `Text.StrLess` models that operator, and `Calendar.KeyOrder`
proves that on keys it is exactly chronological order, and that two days
share a key only when they are the same day. The day-stepping loops
(`current.setDate(current.getDate() + 1)`) step with `Calendar.Next`, the
calendar successor.

Mutable state follows the page: the edit view is the class
`EditModal.EditBookingModal` (form, selection, error, delete flags), the page
is `HomePage.Home` (vehicles, bookings, filter). The loops that fill a `Set`
or walk a range are methods with loop invariants
(`Occupancy.AddDays`, `Occupancy.AllBookedDates`, `Occupancy.EditBookedDates`,
`RangeSelection.RangeIsFree`); the filters, the merge and the record building
are functions. What a click does is stated on days by the ghost function
`RangeSelection.Click`; `DateClick` runs the string-based code and is proved
to agree with it.

A two-day selection may hold the same day twice: the edit view opens with
`[start_date, end_date]`, which is `[d, d]` for a one-day booking
(`EditBookingModal.constructor` states this selection). Only a selection
completed by a second click is strictly ascending (`RangeSelection.Click`).

## Model

| member | source | states |
|---|---|---|
| `Text.StrLessConcat` | src/app/edit-view_booking/page.tsx:108 | comparing strings whose first parts have equal length compares those parts first, and the rest only when they are equal |
| `Text.StrLess` | src/app/edit-view_booking/page.tsx:108 | JavaScript `<` on strings, lexicographic with a proper prefix first; no string is below itself |
| `Text.PadOrder` | src/app/edit-view_booking/page.tsx:194 | zero-padded numbers of one width compare as strings exactly as numbers compare, and equal strings mean equal numbers |
| `Text.Pad` | src/app/edit-view_booking/page.tsx:194 | `padStart(w, "0")` of a number below 10^w: exactly `w` characters, all decimal digits |
| `Text.IncludesIsSubstring` | src/app/edit-view_booking/page.tsx:16-17 | `includes` holds exactly when the needle occurs at some position of the haystack |
| `Text.Includes` | src/app/edit-view_booking/page.tsx:16 | `includes`: the empty string is always included, and nothing longer than the haystack is |
| `Text.ToLower` | src/app/edit-view_booking/page.tsx:17 | `toLowerCase` on ASCII: same length, no upper-case ASCII letter left, and only those letters change, each to its lower-case form |
| `Text.JoinSplit` | src/app/edit-view_booking/page.tsx:550 | joining the pieces of a split on the same separator gives back the original string |
| `Calendar.Next` | src/app/edit-view_booking/page.tsx:40 | the next day is a calendar date strictly after the current one |
| `Calendar.KeyOrder` | src/app/edit-view_booking/page.tsx:108 | `<` on two days' "YYYY-MM-DD" strings holds exactly when the first day is earlier; the strings are equal exactly when the days are |
| `Calendar.Key` | src/app/edit-view_booking/page.tsx:38 | `toISOString().slice(0, 10)`: ten characters with dashes at positions 4 and 7 (its order and injectivity are `KeyOrder` and `KeyInjective`) |
| `Calendar.KeyInjective` | src/app/edit-view_booking/page.tsx:114 | no two different days have the same key, so set membership of keys is membership of days |
| `Calendar.DisplayOfKey` | src/app/edit-view_booking/page.tsx:550 | the list view shows a stored "YYYY-MM-DD" day as "DD/MM/YYYY" |
| `Calendar.DisplayDate` | src/app/edit-view_booking/page.tsx:550 | split on `-`, reverse, join with `/`: no dash is left in what is shown |
| `Bookings.FindVehicle` | src/app/edit-view_booking/page.tsx:14 | no result exactly when no vehicle has the identifier; otherwise the first vehicle with that identifier |
| `Bookings.Matches` | src/app/edit-view_booking/page.tsx:14-17 | an orphaned booking is dropped; otherwise kept exactly when the tab is ALL or the trim holds the token (case-sensitive) and the search is empty or the lower-cased name holds the lower-cased term |
| `Bookings.SameDayBooking` | src/app/edit-view_booking/page.tsx:19 | a booking with start equal to end holds exactly one day |
| `Bookings.Filter` | src/app/edit-view_booking/page.tsx:9-20 | the result is an order-preserving subsequence holding every passing element as often as the input does and nothing else |
| `Bookings.FilterAgain` | src/app/edit-view_booking/page.tsx:320-326 | filtering a filtered list again with a weaker test leaves it unchanged |
| `Bookings.BookingsForDate` | src/app/edit-view_booking/page.tsx:7-21 | an order-preserving subsequence of the bookings holding, as often as given, exactly those that pass the filter and cover the day |
| `Bookings.MatchingBookings` | src/app/edit-view_booking/page.tsx:320-326 | an order-preserving subsequence of the bookings holding, as often as given, exactly those that pass the filter |
| `Bookings.DayListRefilter` | src/app/edit-view_booking/page.tsx:319-326 | the day list's second filter leaves `getBookingsForDate`'s result unchanged |
| `Bookings.ReplaceById` | src/app/edit-view_booking/page.tsx:456-458 | same length; each element with the saved identifier becomes the saved record, every other element stays at its position |
| `Bookings.ReplaceByIdSettles` | src/app/edit-view_booking/page.tsx:457 | saving twice equals saving once; saving an absent identifier changes nothing |
| `Occupancy.AddDays` | src/app/edit-view_booking/page.tsx:34-41 | the walk adds the key of exactly those days of the closed range that pass the year test, and nothing else |
| `Occupancy.AllBookedDates` | src/app/edit-view_booking/page.tsx:24-44 | a day's key is in the set exactly when the day is in the year and some booking passing the filter holds it; every element is such a key |
| `Occupancy.OccupiedInYearReorder` | src/app/edit-view_booking/page.tsx:28 | the year view does not depend on the order of the bookings |
| `Occupancy.EditBookedDates` | src/app/edit-view_booking/page.tsx:89-99 | a day's key is in the set exactly when another booking (different identifier) of the same vehicle holds the day; every element is such a key |
| `Occupancy.EditExclusion` | src/app/edit-view_booking/page.tsx:91 | excluding the edited booking removes exactly its own days that no other booking of the vehicle holds |
| `RangeSelection.RangeIsFree` | src/app/edit-view_booking/page.tsx:110-119 | the walk with early `break` answers true exactly when no day of the closed range is occupied |
| `RangeSelection.Click` | src/app/edit-view_booking/page.tsx:101-129 | a click keeps at most two days; a changed selection holds the clicked, free day; a new two-day selection is strictly ascending, collision-free and made of the first click and the new one; a range error leaves the one-day selection |
| `RangeSelection.ClickIgnored` | src/app/edit-view_booking/page.tsx:102-107 | clicking an occupied day, or the one selected day again, changes nothing |
| `RangeSelection.ClickRestarts` | src/app/edit-view_booking/page.tsx:103-104 | from an empty or complete selection a free day gives exactly `[d]` |
| `RangeSelection.TwoClicks` | src/app/edit-view_booking/page.tsx:103-127 | two clicks on distinct free days give `[min, max]` when the range between is free, else `[first]` with the range error |
| `EditModal.InOrder` | src/app/edit-view_booking/page.tsx:147-148 | ordering the pair by key comparison puts the earlier day first and keeps both days |
| `EditModal.UpdatedBooking` | src/app/edit-view_booking/page.tsx:135-157 | rejected, with the matching message, exactly when a field is empty or the selection does not hold two days; otherwise start is not after end, the dates are the selection, the fields come from the form and everything else from the booking |
| `EditModal.EditBookingModal.constructor` | src/app/edit-view_booking/page.tsx:60-68 | the view opens with the booking's details, its own start and end selected, no error, and the edit-view occupied set |
| `EditModal.EditBookingModal.DateClick` | src/app/edit-view_booking/page.tsx:101-129 | the string-based handler produces the selection `Click` states and sets the range error exactly when `Click` reports it |
| `EditModal.EditBookingModal.Input` | src/app/edit-view_booking/page.tsx:131-133 | the named field takes the value, the others are kept |
| `EditModal.EditBookingModal.Save` | src/app/edit-view_booking/page.tsx:135-157 | a record is produced exactly when validation passes; otherwise the validation message becomes the error |
| `EditModal.EditBookingModal.AskDelete` | src/app/edit-view_booking/page.tsx:254 | the confirmation prompt is open |
| `EditModal.EditBookingModal.CancelDelete` | src/app/edit-view_booking/page.tsx:284 | the confirmation prompt is closed |
| `EditModal.EditBookingModal.HandleDelete` | src/app/edit-view_booking/page.tsx:74-87 | success closes the view and the prompt; failure only clears the busy flag, leaving the prompt open for another try |
| `HomePage.Home.constructor` | src/app/edit-view_booking/page.tsx:412-444 | the page starts with the loaded data, the ALL tab and an empty search |
| `HomePage.Home.BookingsOnDate` | src/app/edit-view_booking/page.tsx:448 | the day list receives exactly the bookings that pass the current filter and hold the day |
| `HomePage.Home.HandleSave` | src/app/edit-view_booking/page.tsx:456-458 | the collection becomes the replace-by-identifier of the saved record |

## Left out

- Network and I/O: the `fetch` calls, `res.json()`, `console.error` and `window.location.reload()`. The model stops at the record `Save` would send; whether the DELETE succeeded is a parameter of `HandleDelete`.
- EditModal.EditBookingModal.Save: the success message and the delayed close after the PUT response are not modelled.
- Timers: the `setTimeout` calls that clear messages after a delay; an error is a field that stays set.
- JavaScript `Date` semantics: UTC parsing of "YYYY-MM-DD" against local `setDate` and `getFullYear`, time zones and daylight saving. Days are calendar dates and `Calendar.Next` is the calendar successor, so a booking spanning a time-zone shift is not modelled.
- Calendar.Day: only four-digit years are modelled; for other years the grid's `${year}` and `toISOString` do not produce the same string.
- The normalisation of loaded dates (lines 429-433): bookings arrive with canonical days.
- `toLowerCase` is modelled for ASCII letters only (`Text.ToLower`); full Unicode case folding is not.
- Rendering: JSX, styles, the month grid, month names, the list view apart from its date display (line 550; its own category and search filtering at lines 530-538 is not modelled), the list/calendar toggle and modal visibility.
- The edit view's `bookedDates` is recomputed at every render from its props; the model computes it once when the view opens.
- EditModal.EditBookingModal.HandleDelete: the intermediate `deleting` state while the request is in flight is passed through, since nothing else runs during it in the model.
