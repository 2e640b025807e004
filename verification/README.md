# Ralph: a model of the food diary, schedule and icon scripts

Ralph is a small Next.js app. A signed-in user keeps a food diary, asks a language
model to analyse it, keeps a weekly schedule of activities and chooses which tabs
the app shows. This project models its logic in Dafny and proves properties of that
model. It covers these parts of the app:

- the analysis route `POST /api/ai/analyze` (module `Analyze`):
  - it picks all of the user's food entries, or only those newer than the stored
    watermark `lastEntryDate`;
  - it serializes the previous analysis (`Json`) and renders the entries into the prompt;
  - it stores the model's answer as the user's one analysis row and moves the watermark;
- the server actions over the user's tables: the food diary (`FoodDiary`, with
  `Clock` for the UTC day window), the schedule (`ScheduleActions`), the visible
  tabs (`Settings`), and the identity provider's webhook that keeps the user table in
  step (`ClerkWebhook`);
- the schedule UI logic:
  - the add-activity form: time parsing, overlap detection and form state (`ActivityForm`);
  - the optimistic reducer of a day slide (`DaySlide`);
  - the weekday bucketing of the carousel (`WeekCarousel`);
  - the tab toggles of the settings form (`RouteToggleForm`);
- the service worker's request policy and cache pruning (`ServiceWorker`);
- the two icon scripts:
  - `Favicon` writes the 32 by 32 favicon as a PNG inside an ICO file;
  - `GenIcons` writes the 192 and 512 pixel app icons;
  - they share the byte-level modules `Bytes`, `Crc` (the CRC-32 of section 5.5 of
    the PNG specification), `Png`, `Raster` (scanlines with filter bytes) and `Ico`.

## How the model is built

- **The database.** `Db.Database` is one class holding the tables, like the single
  database client every action shares. Tables read in insertion order are sequences.
  Tables keyed by user are maps.
- **Changes to state.** Server actions and route handlers are methods that change
  `db`. Their `ensures` give the whole new state, the reply, and "nothing else
  changes".
- **Pure steps.** Selection, rendering, parsing and ordering are functions. Lemmas
  give each one a partner: a round trip, an independent characterization, or an
  invariant.
- **Form state.** The React forms (`ActivityForm.Form`, `RouteToggleForm.Form`) and
  the browser's `CacheStorage` (`ServiceWorker.Caches`) are classes whose methods
  update their fields. A cache entry is keyed by the whole request URL (origin, path
  and query), as `Cache.put` and `caches.match` key it; the routing rules read only
  the path.
- **The icon scripts.** They keep their loops over arrays: the CRC table fill, the
  register loop, the pixel and scanline loops, and the field-by-field header writes.
  Each loop is proved against a function. That function is in turn proved against a
  parser (the chunk, header, ICO and scanline writers), against a region
  characterization (the pixel fills), or checked on known values only (the CRC; see
  "Left out").
- **Things outside the app** are parameters:
  - the signed-in user is an `Option<UserId>`;
  - the language model's answer is a `Result`;
  - a verified webhook event is an `Option<Event>`;
  - the network response is an `Option<Response>`;
  - the current instant is a number of milliseconds;
  - a failing store write is a `storeFault`;
  - compression is a function `deflate`.

## Model

| member | source | states |
|---|---|---|
| Auth.RequiredUserId | src/lib/auth.ts:3-7 | Success exactly when the session carries a non-empty user id, and then that id; otherwise the error `"Unauthorized"` |
| Db.CaughtMessage | src/server/actions/food-diary.ts:48-51 | A caught `Error` reports its own message, anything else `"Unknown error"` |
| Db.Database.constructor | src/lib/prisma.ts:18-21 | The shared store starts with empty tables and keeps its invariant: unique ids below the counter, users stored under their own id |
| Clock.TodayUtc | src/server/actions/food-diary.ts:11-16 | The result is a multiple of one day and the instant lies in `[start, start + 24h)`: the midnight UTC that starts its day |
| Clock.TodayUtcIdempotent | src/server/actions/food-diary.ts:11-16 | The midnight of a midnight is itself |
| Clock.SameDayWindow | src/server/actions/food-diary.ts:20-25 | Two instants have the same UTC midnight exactly when the second lies in the first one's window `[start, start + 24h)` |
| Clock.CivilFromDays | src/app/api/ai/analyze/route.ts:81 | The calendar date of a day number has a month from 1 to 12 and a day from 1 to 31 |
| Clock.CivilFromDaysIsCalendar | src/app/api/ai/analyze/route.ts:81 | The date of a day number is a valid Gregorian date, with a day no later than its month's last, and counting the days before its year, before its month and before it in the month gives back the day number |
| Clock.DaysBeforeYearStep | src/app/api/ai/analyze/route.ts:81 | The reference day count starts at 0 in 1970 and each year adds 366 days when it is a leap year, 365 otherwise |
| Clock.LeapsStep | src/app/api/ai/analyze/route.ts:81 | The count of leap years grows by one exactly at a year divisible by 4 and not by 100, or divisible by 400 |
| Clock.IsoDate | src/app/api/ai/analyze/route.ts:81 | `toISOString().slice(0, 10)` is always ten characters |
| Clock.IsoDateShape | src/app/api/ai/analyze/route.ts:81 | For a four-digit year the slice is `YYYY-MM-DD`: the year, month and day of the instant, with dashes at positions 4 and 7 |
| Sorting.SortBySorted | src/server/actions/schedule.ts:32-35 | Every ascending `orderBy` and client `sort` returns a sorted permutation of its input |
| Sorting.SortByStable | src/components/schedule/day-slide.tsx:32-34 | For every key, the elements with that key keep their input order (a stable sort) |
| Sorting.SortBySortedIsIdentity | src/components/schedule/day-slide.tsx:32-34 | Sorting a list that is already in order changes nothing |
| Sorting.AppendThenSort | src/components/schedule/day-slide.tsx:32-34 | Appending one element to a sorted list and sorting it is inserting that element |
| Sorting.InsertSorted | src/components/schedule/day-slide.tsx:32-34 | Inserting into a sorted list keeps it sorted |
| Sorting.InsertMembers | src/components/schedule/day-slide.tsx:32-34 | An insertion holds exactly the old elements and the new one, as a multiset |
| Sorting.InsertStable | src/components/schedule/day-slide.tsx:32-34 | An inserted element follows every element with its key, and no other key's elements move |
| Sorting.FilterSorted | src/components/schedule/day-slide.tsx:36 | Filtering keeps a sorted list sorted |
| Sorting.FilterConcat | src/components/schedule/week-carousel.tsx:34-36 | Filtering distributes over concatenation |
| Sorting.FilterKeptInOrder | src/components/schedule/day-slide.tsx:36 | A filter's result is the elements that pass, each taken once, at increasing positions of the input |
| Sorting.FilterCutsOne | src/server/actions/schedule.ts:47 | Filtering out exactly one element removes that element and keeps the rest in order |
| Sorting.FilterDistinct | src/server/actions/schedule.ts:47 | Filtering a list without repeats gives a list without repeats |
| Sorting.FindIndex | src/components/schedule/add-activity-form.tsx:38-42 | The first index whose element satisfies the test, or the length when none does |
| Sorting.IntLeIsTotalPreorder | src/app/api/ai/analyze/route.ts:45 | Ascending order on dates is total and transitive |
| Text.StrLeIsTotalPreorder | src/components/schedule/day-slide.tsx:33 | Code-point order on strings is total and transitive, so sorting by start time is well defined |
| Text.StrLeAntisymmetric | src/components/schedule/day-slide.tsx:33 | Two strings that are each at most the other are equal |
| Text.JoinConcat | src/app/api/ai/analyze/route.ts:78-83 | Joining two non-empty lists is joining their joins with one separator between them |
| Text.JoinLength | src/server/actions/settings.ts:30-35 | A join of `n` parts is at least `n - 1` separators long |
| Text.NatToStringValue | src/components/schedule/add-activity-form.tsx:26-27 | A decimal rendering reads back as its number |
| Text.NatToStringLength | src/components/schedule/add-activity-form.tsx:24-29 | A number below `10^k` prints in at most `k` digits, and padded to `k` digits it is exactly `k` characters long |
| Text.PadNatValue | src/components/schedule/add-activity-form.tsx:24-29 | A zero-padded rendering reads back as the number |
| ActivityForm.Split | src/components/schedule/add-activity-form.tsx:25 | `split` gives at least one piece, and text without the separator is one piece |
| ActivityForm.SplitAt | src/components/schedule/add-activity-form.tsx:25 | Splitting at a separator gives the piece before it, then the pieces of what follows |
| ActivityForm.DigitPrefixOf | src/components/schedule/add-activity-form.tsx:26-27 | The digit run `parseInt` reads stops at the first non-digit |
| ActivityForm.ParseIntDigits | src/components/schedule/add-activity-form.tsx:26-27 | A run of digits followed by a non-digit parses as its value |
| ActivityForm.ParseIntPadNat | src/components/schedule/add-activity-form.tsx:26-27 | `parseInt` reads back a zero-padded number, which holds no colon |
| ActivityForm.TimeFields | src/components/schedule/add-activity-form.tsx:24-29 | `"a:b"` is `60 * a + b` minutes when both fields parse |
| ActivityForm.TimeHourField | src/components/schedule/add-activity-form.tsx:24-29 | Text without a colon is all hours: a missing minute field counts as 0 |
| ActivityForm.TimeToMinutesOfClock | src/components/schedule/add-activity-form.tsx:24-29 | A zero-padded `"HH:MM"` is `60 * HH + MM` minutes |
| ActivityForm.TimeToMinutesHourOnly | src/components/schedule/add-activity-form.tsx:24-29 | Without a colon the minutes count as zero |
| ActivityForm.OverlapsSymmetric | src/components/schedule/add-activity-form.tsx:41 | The overlap test is symmetric in its two intervals |
| ActivityForm.OverlapsIsIntersection | src/components/schedule/add-activity-form.tsx:41 | For non-empty intervals, the test holds exactly when the half-open intervals share a minute; touching intervals do not overlap |
| ActivityForm.FindOverlap | src/components/schedule/add-activity-form.tsx:31-43 | `None` exactly when no entry overlaps; otherwise the first overlapping entry in list order |
| ActivityForm.UnreadableTimeOverlapsNothing | src/components/schedule/add-activity-form.tsx:24-29 | A time `parseInt` cannot read (`NaN`), including the empty input, overlaps nothing |
| ActivityForm.Form.constructor | src/components/schedule/add-activity-form.tsx:46-51 | The form starts with empty inputs, no messages, nothing pending, and a disabled submit button |
| ActivityForm.Form.ChangeStart | src/components/schedule/add-activity-form.tsx:81-89 | The start input takes the value; the warning is recomputed only when both times are filled in; nothing else changes |
| ActivityForm.Form.ChangeEnd | src/components/schedule/add-activity-form.tsx:97-105 | The end input takes the value; the warning is recomputed only when both times are filled in; nothing else changes |
| ActivityForm.Form.ChangeActivity | src/components/schedule/add-activity-form.tsx:115 | The activity input takes the value; nothing else changes |
| ActivityForm.Form.BeginSubmit | src/components/schedule/add-activity-form.tsx:55-59 | Submitting hands over the three inputs, clears the error, marks the form pending and disables the button |
| ActivityForm.Form.FinishSubmit | src/components/schedule/add-activity-form.tsx:60-69 | Success clears the inputs and the warning; failure keeps the inputs and shows the error; either way nothing is pending |
| DaySlide.AddSpec | src/components/schedule/day-slide.tsx:31-34 | An add holds the old entries plus the new one (as a multiset), sorted by start time, and equal start times keep their order with the new entry last |
| DaySlide.AddToSortedIsInsert | src/components/schedule/day-slide.tsx:31-34 | On a sorted list, an add inserts the entry after every entry that does not start later |
| DaySlide.DeleteSpec | src/components/schedule/day-slide.tsx:36 | A delete removes every entry with that id, keeps each other entry exactly once and in its original order (so a sorted list stays sorted), and changes nothing when the id is absent |
| DaySlide.ShownSorted | src/components/schedule/day-slide.tsx:27-37 | Starting from the server's sorted list, the shown list stays sorted whatever adds and deletes are in flight |
| DaySlide.PendingAddIsChecked | src/components/schedule/day-slide.tsx:95 | The form checks against the optimistic list, so a new interval overlapping a pending add is reported |
| DaySlide.TempIdIsFresh | src/components/schedule/day-slide.tsx:45-50 | A temporary id never equals a stored row's decimal id |
| DaySlide.HandleAdd | src/components/schedule/day-slide.tsx:39-62 | The optimistic entry gets the temporary id, and it and the add call carry the same three fields; the call carries the slide's weekday |
| WeekCarousel.TodayIndex | src/components/schedule/week-carousel.tsx:30 | `getDay()` becomes a Monday-first index below 7 that names the same day |
| WeekCarousel.ByWeekday | src/components/schedule/week-carousel.tsx:34-36 | Seven buckets; each holds only entries with its own weekday |
| WeekCarousel.BucketInOrder | src/components/schedule/week-carousel.tsx:34-36 | Bucket `i` is the listing's entries with weekday `i`, each exactly once and in the listing's order |
| WeekCarousel.BucketsPartition | src/components/schedule/week-carousel.tsx:34-36 | An entry with weekday 0 to 6 is in exactly its day's bucket; one with any other weekday is in none |
| WeekCarousel.BucketsSorted | src/components/schedule/week-carousel.tsx:34-36 | A bucket of a listing sorted by start time is sorted |
| WeekCarousel.Views | src/components/schedule/week-carousel.tsx:41-45 | Every stored row reaches the slide once, in order |
| WeekCarousel.SlidesAsWritten | src/components/schedule/week-carousel.tsx:41-45 | Seven slides, none of them given a weekday |
| WeekCarousel.Slides | src/components/schedule/week-carousel.tsx:41-45 | Seven slides, one per entry of the day list at lines 6-14; slide `i` is named `Days[i]`, Monday first, and is given weekday `i` |
| WeekCarousel.SlideEntriesSorted | src/components/schedule/week-carousel.tsx:41-45 | Fed the server's listing, every slide shows its activities sorted by start time |
| WeekCarousel.AddFromSlideAsWrittenLosesDay | src/components/schedule/week-carousel.tsx:41-45 | As rendered, an add from any slide reaches the action without a weekday |
| WeekCarousel.AddFromSlideLandsOnItsDay | src/components/schedule/week-carousel.tsx:41-45 | With the weekday passed, an add from slide `i` is sent with weekday `i`, and the stored row appears on slide `i` and on no other |
| RouteToggleForm.ToggleFlips | src/components/settings/route-toggle-form.tsx:24-27 | A toggle flips whether the route is chosen and leaves every other route's membership unchanged |
| RouteToggleForm.ToggleTwice | src/components/settings/route-toggle-form.tsx:24-27 | Unticking removes every copy and keeps the rest in order, ticking appends; tick-then-untick restores the list |
| RouteToggleForm.TogglesPassRouteCheck | src/components/settings/route-toggle-form.tsx:50-52 | Starting from known routes, toggling a known route gives a list the update action accepts |
| RouteToggleForm.Form.constructor | src/components/settings/route-toggle-form.tsx:20-22 | The form starts from the routes the page read, with no error and nothing pending |
| RouteToggleForm.Form.Toggle | src/components/settings/route-toggle-form.tsx:24-27 | A checkbox change toggles its route; nothing changes while a save is pending |
| RouteToggleForm.Form.BeginSubmit | src/components/settings/route-toggle-form.tsx:29-34 | Submitting clears the error, marks the form pending and sends the chosen routes |
| RouteToggleForm.Form.FinishSubmit | src/components/settings/route-toggle-form.tsx:35-39 | Success shows the "Settings saved" toast and no error; failure shows the action's error; either way nothing is pending |
| FoodDiary.TodayCandidates | src/server/actions/food-diary.ts:22-26 | Exactly the user's entries dated in today's window, in table order |
| FoodDiary.TodayEntriesSpec | src/server/actions/food-diary.ts:18-29 | Today's list holds exactly the user's entries of the current UTC day, oldest creation first, with ties in table order |
| FoodDiary.GetTodayFoodEntries | src/server/actions/food-diary.ts:18-29 | Without a signed-in user the `"Unauthorized"` error escapes; otherwise today's list of that user |
| FoodDiary.TodayCandidatesAppend | src/server/actions/food-diary.ts:22-26 | A new row joins the candidates, at the end, exactly when it is in the window |
| FoodDiary.CreatedEntryIsListedToday | src/server/actions/food-diary.ts:37-45 | An entry created now is on its owner's today list and on no one else's |
| FoodDiary.CreateFoodEntry | src/server/actions/food-diary.ts:31-52 | One new row with the caller's id, today's midnight, the given meal and description and no feelings; failures are reported and change nothing |
| FoodDiary.SetFeelings | src/server/actions/food-diary.ts:66-69 | The row with that id gets the new feelings; every other field and row is unchanged |
| FoodDiary.SetFeelingsKeepsOthers | src/server/actions/food-diary.ts:60-69 | With unique ids, an allowed update leaves every other user's entries as they were |
| FoodDiary.UpdateFoodEntryFeelings | src/server/actions/food-diary.ts:54-76 | An absent id, or one owned by another user, gives "Entry not found" and changes nothing; otherwise only that entry's feelings change |
| ScheduleActions.CreateScheduleEntry | src/server/actions/schedule.ts:11-28 | One new row owned by the caller with exactly the given fields, with nothing validated; failures are reported and change nothing |
| ScheduleActions.OwnedBy | src/server/actions/schedule.ts:33 | Exactly the user's rows, in table order |
| ScheduleActions.ScheduleOfSpec | src/server/actions/schedule.ts:30-36 | The listing holds exactly the user's rows, sorted by start time, with equal start times in table order |
| ScheduleActions.GetScheduleEntries | src/server/actions/schedule.ts:30-36 | Without a signed-in user the error escapes; otherwise the user's listing |
| ScheduleActions.CreatedEntryIsListed | src/server/actions/schedule.ts:19-21 | A created row shows up in its owner's listing and in no one else's |
| ScheduleActions.Without | src/server/actions/schedule.ts:47 | Every row with another id, in table order |
| ScheduleActions.WithoutCutsOneRow | src/server/actions/schedule.ts:47 | With unique ids, deleting a row's id cuts exactly that row out of the table |
| ScheduleActions.CutKeepsIds | src/server/actions/schedule.ts:47 | Cutting one row out keeps the ids unique and bounded |
| ScheduleActions.DeleteScheduleEntry | src/server/actions/schedule.ts:38-54 | An absent id, or another user's, gives "Entry not found" and removes nothing; otherwise exactly that row goes |
| Settings.InvalidRoutes | src/server/actions/settings.ts:30 | The unknown routes of the request, in request order with repeats |
| Settings.InvalidRoutesInOrder | src/server/actions/settings.ts:30 | The unknown routes are collected route by route; a known route adds nothing |
| Settings.RouteCheckExact | src/server/actions/settings.ts:30-35 | A request passes the check exactly when each of its routes is known; the empty list passes |
| Settings.GetVisibleRoutes | src/server/actions/settings.ts:12-21 | The defaults without a session or for a null column, the stored list for a stored choice, and `undefined` for a session without a row |
| Settings.SignedInWithoutRowGetsUndefined | src/server/actions/settings.ts:19-20 | As written, a signed-in user without a row gets `undefined` |
| Settings.VisibleRoutes | src/components/layout/tab-bar-server.tsx:7-17 | The corrected read always gives a list: the defaults unless the user has a row with a stored choice, and then that choice |
| Settings.VisibleRoutesAgrees | src/server/actions/settings.ts:12-21 | The corrected read differs from the written one only where that one gives `undefined` |
| Settings.UpdateVisibleRoutes | src/server/actions/settings.ts:23-47 | "Not authenticated" without a session; "Unknown routes: " and the unknown ones joined by ", " if any route is unknown; otherwise the list is stored as given, and the read returns it from then on |
| ClerkWebhook.PrimaryEmail | src/app/api/webhooks/clerk/route.ts:26-29 | `None` exactly when no address has the primary id; otherwise one of the addresses, the first with that id |
| ClerkWebhook.FullName | src/app/api/webhooks/clerk/route.ts:34-35 | The non-empty name parts joined by one space, or null when there are none |
| ClerkWebhook.Upsert | src/app/api/webhooks/clerk/route.ts:37-41 | A new row carries id, email and name; an existing row gets only the new email and name; other users are unchanged |
| ClerkWebhook.UpsertIdempotent | src/app/api/webhooks/clerk/route.ts:37-41 | Replaying a creation or update event changes nothing the second time |
| ClerkWebhook.UpsertKeepsVisibleRoutes | src/app/api/webhooks/clerk/route.ts:37-41 | An update keeps the user's chosen tabs; only a new row starts without a choice |
| ClerkWebhook.DeleteMany | src/app/api/webhooks/clerk/route.ts:21 | Exactly the rows that fail the `where: { id }` filter remain, unchanged; an absent id sets no condition |
| ClerkWebhook.DeletedWithoutIdRemovesEveryone | src/app/api/webhooks/clerk/route.ts:20-22 | As written, a deletion event without an id leaves no user row at all |
| ClerkWebhook.DeleteUser | src/app/api/webhooks/clerk/route.ts:20-22 | The corrected deletion keeps exactly the rows other than the named user's, unchanged |
| ClerkWebhook.DeleteUserRemovesAtMostOne | src/app/api/webhooks/clerk/route.ts:20-22 | The corrected deletion removes at most the named user's row, nothing without an id, and agrees with `deleteMany` when the event names a user |
| ClerkWebhook.Post | src/app/api/webhooks/clerk/route.ts:10-44 | A bad signature gives 400. Deletion answers 204 and runs `deleteMany` on the payload's optional id: with an id that row goes, without one every row goes. Creation and update need a primary email (else 400, no write) and then upsert. Other events give 204 and change nothing |
| Analyze.ParseModeExact | src/app/api/ai/analyze/route.ts:8-10 | The body schema accepts exactly the two mode names and reads each back as its mode |
| Analyze.Candidates | src/app/api/ai/analyze/route.ts:41-69 | Exactly the user's entries past the watermark, if there is one |
| Analyze.EntriesForSpec | src/app/api/ai/analyze/route.ts:41-69 | The read returns exactly the user's entries past the watermark, oldest first, with equal dates in table order |
| Analyze.IncrementalWithoutAnalysisIsFull | src/app/api/ai/analyze/route.ts:49-68 | Without a stored analysis, incremental mode selects what full mode does and has no previous analysis |
| Analyze.NewestIsLast | src/app/api/ai/analyze/route.ts:98 | The last selected entry has the newest date; incrementally it is past the old watermark |
| Analyze.LastIsNewest | src/app/api/ai/analyze/route.ts:98 | In ascending date order no element is newer than the last |
| Analyze.NothingPast | src/app/api/ai/analyze/route.ts:59-62 | Nothing is past a watermark at least as new as every candidate |
| Analyze.RerunFindsNothing | src/app/api/ai/analyze/route.ts:100-115 | After a run has stored the newest selected date, an incremental run over the same entries finds nothing |
| Analyze.WatermarkNeverDecreases | src/app/api/ai/analyze/route.ts:41-115 | When the stored watermark is the date of one of the user's entries, a run of either mode that selects anything ends on an entry at least as new |
| Analyze.NewestIsDated | src/app/api/ai/analyze/route.ts:98-115 | The newest selected entry, whose date becomes the watermark, is one of the user's entries |
| Analyze.AnalyzeKeepsAnchored | src/app/api/ai/analyze/route.ts:98-115 | A run keeps every watermark equal to the date of one of its user's entries, and never moves a stored watermark back |
| Analyze.DiaryWritesKeepAnchored | src/server/actions/food-diary.ts:37-69 | Adding a diary entry or recording feelings keeps every watermark anchored to an entry of its user |
| Analyze.SameDayEntryNotSelected | src/app/api/ai/analyze/route.ts:59-62 | An entry of the user dated exactly at the stored watermark is never selected by an incremental run, so a later entry of the newest analysed day is skipped |
| Analyze.DishPairsRoundTrip | src/app/api/ai/analyze/route.ts:53-57 | Dishes turned into pairs and back are the same dishes |
| Analyze.AvoidProductsRoundTrip | src/app/api/ai/analyze/route.ts:53-57 | The printed `avoidProducts` member reads back as the same products |
| Analyze.NotRecommendedRoundTrip | src/app/api/ai/analyze/route.ts:53-57 | The printed members after `recommended` read back as the same lists |
| Analyze.AnalysisJsonRoundTrip | src/app/api/ai/analyze/route.ts:53-57 | The serialized previous analysis reads back as the three stored lists, whatever their text |
| Analyze.AnalysisJsonInjective | src/app/api/ai/analyze/route.ts:53-57 | Analyses with different lists never serialize to the same text |
| Analyze.RenderEntryShape | src/app/api/ai/analyze/route.ts:81 | Each line starts `Date: ` and the ISO date, and ends with the feelings, or with the description when feelings are missing or empty |
| Analyze.EntriesTextConcat | src/app/api/ai/analyze/route.ts:78-83 | The text of a split list is the two halves' texts with one line break between |
| Analyze.LinesConcat | src/app/api/ai/analyze/route.ts:78-82 | Lines of a concatenation are the concatenated lines |
| Analyze.EntriesTextSingle | src/app/api/ai/analyze/route.ts:78-83 | A single entry is its line alone, with no line break |
| Analyze.UserPromptForms | src/app/api/ai/analyze/route.ts:85-88 | The update form exactly when incremental with a previous analysis; the entries text is in the prompt either way, and is the whole tail of the plain form |
| Analyze.Decide | src/app/api/ai/analyze/route.ts:41-117 | No entries: 400 and nothing stored. Otherwise the prompt is sent; a failed generation throws and stores nothing; success gives 200 and stores the lists with the newest selected date as the watermark |
| Analyze.Run | src/app/api/ai/analyze/route.ts:41-117 | The tables change exactly as `Decide` says |
| Analyze.Post | src/app/api/ai/analyze/route.ts:24-118 | 401 "Unauthorized" before the body is read; a body that is not JSON throws; 400 "Invalid mode" before any table is read; otherwise the run |
| Json.EscapeBodyParses | src/app/api/ai/analyze/route.ts:53-57 | The escaped body of a string followed by a quote parses back to the string |
| Json.QuoteParses | src/app/api/ai/analyze/route.ts:53-57 | A string literal reads back whole, whatever follows it |
| Json.QuoteInjective | src/app/api/ai/analyze/route.ts:53-57 | Different strings print as different literals |
| Json.PairParses | src/app/api/ai/analyze/route.ts:53-57 | A printed two-field object reads back as its two strings |
| Json.PairsParse | src/app/api/ai/analyze/route.ts:53-57 | A printed array of objects reads back as the same pairs, whatever follows it |
| Json.ItemsParse | src/app/api/ai/analyze/route.ts:53-57 | The comma-separated items of a non-empty list read back as the list |
| Json.ItemsJsonIsJoin | src/app/api/ai/analyze/route.ts:53-57 | The printed items are the items joined by commas |
| ServiceWorker.Classify | public/sw.js:23-49 | Pass-through exactly for non-GET, API and sign-in requests; cache-first exactly for static assets; network-first for every other GET |
| ServiceWorker.StaticNotBypassed | public/sw.js:28-33 | No static asset path is an API or sign-in path |
| ServiceWorker.MatchIn | public/sw.js:61 | `None` exactly when no cache holds the URL; otherwise a response some cache holds, from the first such cache |
| ServiceWorker.Stale | public/sw.js:15 | Exactly the names that are neither of the two current caches |
| ServiceWorker.Caches.constructor | public/sw.js:1-2 | The origin starts with no caches, so only current caches exist and the static cache holds only static assets |
| ServiceWorker.Caches.Open | public/sw.js:35 | Opening (here and at line 55) creates an empty cache, last in order, unless it exists; then nothing changes |
| ServiceWorker.Caches.Put | public/sw.js:39 | The response (here and at line 56) replaces any earlier one for that URL in that cache, and nothing else changes |
| ServiceWorker.Caches.Delete | public/sw.js:16 | The cache and its name go; the others keep their order and contents |
| ServiceWorker.Caches.Activate | public/sw.js:8-21 | Afterwards exactly the two current caches that existed are left, with their contents, every name is one of them, and a static cache holding only static assets still does |
| ServiceWorker.HandleFetch | public/sw.js:23-63 | Pass-through touches nothing. Cache-first answers a hit without the network, and on a miss stores the response whatever its status. Network-first stores ok responses only. Only the cache it opens can be added, at the end of the name order, and every other cache keeps its contents. Offline, it answers from the first cache that holds the URL, or fails. It keeps "only the two current caches" and "the static cache holds only static assets", and under them answers an offline page from the pages cache |
| ServiceWorker.OfflinePageComesFromPagesCache | public/sw.js:49-62 | While only the two current caches exist and the static cache holds only static assets, which the constructor, `Activate` and `HandleFetch` establish and keep, a page held by the pages cache is matched to that copy |
| Bytes.Be32RoundTrip | scripts/generate-favicon.mjs:112-114 | Four big-endian bytes of a 32-bit number read back as the number |
| Bytes.Le16RoundTrip | scripts/generate-favicon.mjs:161-163 | Two little-endian bytes read back as the number |
| Bytes.Le32RoundTrip | scripts/generate-favicon.mjs:173-174 | Four little-endian bytes read back as the number |
| Bytes.WriteUInt32BE | scripts/generate-favicon.mjs:124-125 | The four bytes of the number land at the offset; the rest of the buffer is unchanged |
| Bytes.WriteUInt16LE | scripts/generate-favicon.mjs:161-163 | The two bytes land at the offset; the rest of the buffer is unchanged |
| Bytes.WriteUInt32LE | scripts/generate-favicon.mjs:173-174 | The four bytes land at the offset; the rest of the buffer is unchanged |
| Crc.BuildTable | scripts/generate-favicon.mjs:96-101 | The filled table is entry `n` through eight rounds of the reflected polynomial, for every `n` |
| Crc.KnownTableEntries | scripts/generate-favicon.mjs:96-101 | Entry 1 is 0x77073096 and entry 128 is the polynomial 0xEDB88320, as in section 5.5 of the PNG specification |
| Crc.RegisterConcat | scripts/generate-favicon.mjs:103-107 | The register over `a + b` is the register over `a`, continued over `b` |
| Crc.Crc32Append | scripts/generate-favicon.mjs:103-107 | One more byte is one more table step before the inversion |
| Crc.Crc32Empty | scripts/generate-favicon.mjs:103-107 | The CRC of nothing is 0 |
| Crc.IendCrc | scripts/generate-favicon.mjs:152 | The CRC of the type bytes `IEND` is 0xAE426082 |
| Crc.Unsigned | scripts/generate-favicon.mjs:106 | `>>> 0` gives a number below 2^32 whose 32 bits are the register's |
| Crc.Crc32Table | scripts/generate-favicon.mjs:103-107 | The register loop computes the CRC of the whole buffer |
| Crc.Crc32Range | scripts/gen-icons.mjs:29-33 | The loop computes the CRC of the bytes from `start` up to `end`; an empty or reversed range gives 0 |
| Png.CrcBytes | scripts/generate-favicon.mjs:113-114 | Four bytes that read back, big-endian, as the CRC |
| Png.Chunk | scripts/generate-favicon.mjs:109-116 | Twelve bytes more than the data: length, type, data, then the CRC of type and data |
| Png.WriteChunk | scripts/generate-favicon.mjs:109-116 | The chunk built with the script's table is the chunk of section 5.3 of the PNG specification |
| Png.ParseChunk | scripts/generate-favicon.mjs:109-116 | A chunk read off the front has a four-byte type and leaves a shorter rest |
| Png.ChunkRoundTrip | scripts/generate-favicon.mjs:109-116 | A chunk reads back as its type and data, whatever follows it |
| Png.IendChunk | scripts/generate-favicon.mjs:152 | The IEND chunk is always the same twelve bytes, as section 11.2.5 of the PNG specification shows |
| Png.Ihdr | scripts/generate-favicon.mjs:123-130 | The IHDR record is thirteen bytes |
| Png.IhdrFields | scripts/generate-favicon.mjs:123-130 | Width and height read back, then bit depth 8, the colour type and three zero method bytes |
| Png.WriteIhdr | scripts/generate-favicon.mjs:123-130 | The buffer filled field by field is the IHDR record |
| Png.File | scripts/generate-favicon.mjs:148-153 | The file is 57 bytes more than the compressed data |
| Png.FileLayout | scripts/generate-favicon.mjs:148-153 | The file is the eight-byte signature, then the IHDR, IDAT and IEND chunks |
| Png.ParseFileAccepts | scripts/generate-favicon.mjs:148-153 | The reader accepts the signature followed by an IHDR, an IDAT and an empty IEND chunk |
| Png.FileRoundTrip | scripts/generate-favicon.mjs:118-154 | A file reads back as its IHDR record and its compressed data |
| Raster.Scanlines | scripts/generate-favicon.mjs:132-144 | `rows * (rowLen + 1)` bytes: one more byte per row than the pixel data |
| Raster.ScanlinesPrefix | scripts/generate-favicon.mjs:134-144 | The scanlines of the first rows are the first bytes of the scanlines |
| Raster.ScanlineAt | scripts/generate-favicon.mjs:134-144 | Row `y` of the data is filter byte 0, then row `y` of the pixels |
| Raster.FilterByte | scripts/generate-favicon.mjs:135 | Every row starts with filter byte 0 |
| Raster.PixelByte | scripts/generate-favicon.mjs:137-142 | Byte `j` of pixel row `y` lands inside row `y`, right after its filter byte, at offset `1 + j` |
| Raster.UnfilterScanlines | scripts/generate-favicon.mjs:132-144 | Dropping each row's filter byte gives back the pixel buffer |
| Raster.ScanlinesLaid | scripts/generate-favicon.mjs:132-144 | The scanlines have the byte-by-byte layout the loops write |
| Ico.ReadSize | scripts/generate-favicon.mjs:167-168 | A size byte reads back as a size from 1 to 256, 0 standing for 256 |
| Ico.SizeByte | scripts/generate-favicon.mjs:167-168 | 256 is stored as 0; sizes 1 to 256 read back as themselves |
| Ico.Header | scripts/generate-favicon.mjs:160-163 | Reserved 0, type 1, one image, each as two little-endian bytes |
| Ico.Entry | scripts/generate-favicon.mjs:166-174 | Sixteen bytes: the size bytes, no palette, reserved 0, one plane, 32 bits per pixel, the image's length and the offset 22 |
| Ico.File | scripts/generate-favicon.mjs:158-177 | Header, entry and image: 22 bytes more than the image |
| Ico.Parse | scripts/generate-favicon.mjs:158-177 | A reader for exactly that shape, whose length and offset fields point at the rest of the file |
| Ico.RoundTrip | scripts/generate-favicon.mjs:158-177 | Every icon written reads back with its size and its image data |
| Favicon.LetterArea | scripts/generate-favicon.mjs:35-45 | The letter area is 26 by 18 pixels with padding 3 and 7, centred in 32 by 32 |
| Favicon.InnerSquareInside | scripts/generate-favicon.mjs:48-52 | Every pixel of the inner square is inside the rounded square, whatever the radius |
| Favicon.CornersCut | scripts/generate-favicon.mjs:48-52 | With radius 7, the four corner pixels are cut off and the edge midpoints kept |
| Favicon.RoundedRectSymmetric | scripts/generate-favicon.mjs:48-52 | The rounded square is symmetric left to right and top to bottom |
| Favicon.GlyphBlocks | scripts/generate-favicon.mjs:55-74 | Each glyph cell is a 3 by 3 block, drawn exactly when the cell is, for the first glyph from column 3 and the second from column 17 |
| Favicon.GlyphInLetterArea | scripts/generate-favicon.mjs:55-74 | Drawn pixels lie in the letter area and never in the gap between the glyphs |
| Favicon.GlyphInside | scripts/generate-favicon.mjs:55-74 | No drawn pixel falls in a cut-off corner |
| Favicon.ColourRegions | scripts/generate-favicon.mjs:77-91 | Black exactly on the glyphs, transparent exactly outside the rounded square, yellow elsewhere |
| Favicon.PictureAt | scripts/generate-favicon.mjs:77-91 | Byte `k` of pixel `(x, y)` in the buffer is byte `k` of its colour |
| Favicon.FillPixels | scripts/generate-favicon.mjs:77-91 | The nested loops fill the buffer with the picture |
| Favicon.ImageAt | scripts/generate-favicon.mjs:132-144 | Row `y` of the image data is filter byte 0 at `129 * y`, then each pixel's colour at `129 * y + 1 + 4 * x` |
| Favicon.BuildRaw | scripts/generate-favicon.mjs:132-144 | The scanline loop produces the scanlines of the pixel buffer |
| Favicon.CopyRows | scripts/generate-favicon.mjs:134-144 | The row loop writes every byte of any data with the scanline layout |
| Favicon.CopyRow | scripts/generate-favicon.mjs:136-143 | The pixel loop of one row writes that row and keeps the rows before it |
| Favicon.PngFile | scripts/generate-favicon.mjs:118-154 | The favicon PNG reads back as a 32 by 32 RGBA header and the compressed image data |
| Favicon.BuildPng | scripts/generate-favicon.mjs:118-154 | `buildPNG` produces exactly that PNG |
| Favicon.WriteIcoHeader | scripts/generate-favicon.mjs:160-163 | The header written field by field is the ICO header |
| Favicon.WriteIcoEntry | scripts/generate-favicon.mjs:166-174 | The entry written field by field is the ICO directory entry |
| Favicon.BuildIco | scripts/generate-favicon.mjs:158-177 | `buildICO` produces the ICO file around the PNG |
| Favicon.Generate | scripts/generate-favicon.mjs:179-180 | The script's output is the ICO file around the favicon PNG |
| Favicon.FaviconReadsBack | scripts/generate-favicon.mjs:179-180 | The favicon reads back as one 32 by 32 icon whose data is the PNG |
| Favicon.FaviconHeader | scripts/generate-favicon.mjs:123-130 | The header says 32 by 32, bit depth 8, colour type 6 (RGBA) |
| GenIcons.ColourRegions | scripts/gen-icons.mjs:94-109 | Indigo exactly inside the rounded square and off the letter; white otherwise |
| GenIcons.RowAt | scripts/gen-icons.mjs:91-115 | Byte `k` of pixel `x` in a row is byte `k` of its colour |
| GenIcons.RowsAt | scripts/gen-icons.mjs:87-116 | Byte `j` of row `y` is byte `j` of that row |
| GenIcons.PictureAt | scripts/gen-icons.mjs:87-116 | Byte `k` of pixel `(x, y)` in the picture is byte `k` of its colour |
| GenIcons.Raw | scripts/gen-icons.mjs:84-85 | `size * (1 + 3 * size)` bytes |
| GenIcons.RawAt | scripts/gen-icons.mjs:87-116 | Row `y` starts with filter byte 0 at `y * rowBytes`; byte `k` of pixel `(x, y)` is at `y * rowBytes + 1 + 3 * x + k`, inside row `y` and past its filter byte |
| GenIcons.FillRaw | scripts/gen-icons.mjs:84-116 | The nested loops fill the buffer with the image data |
| GenIcons.FillRows | scripts/gen-icons.mjs:87-116 | The row loop writes every byte of data with the scanline layout |
| GenIcons.FillRow | scripts/gen-icons.mjs:91-115 | The pixel loop of one row writes that row and keeps the rows before it |
| GenIcons.WriteChunk | scripts/gen-icons.mjs:35-43 | The chunk built with the ranged CRC over the whole buffer is the chunk of section 5.3 of the PNG specification |
| GenIcons.PngFile | scripts/gen-icons.mjs:130-136 | The file is 57 bytes more than the compressed data |
| GenIcons.IconReadsBack | scripts/gen-icons.mjs:118-136 | Each icon reads back as its header record and its compressed scanlines |
| GenIcons.IconHeader | scripts/gen-icons.mjs:121-128 | The header says `size` by `size`, bit depth 8, colour type 2 (RGB) and methods 0 |
| GenIcons.GeneratePng | scripts/gen-icons.mjs:79-137 | `generatePng` produces exactly that icon's PNG |
| GenIcons.IconNames | scripts/gen-icons.mjs:139-141 | The two files are named `icon-192.png` and `icon-512.png` |
| GenIcons.WrittenAt | scripts/gen-icons.mjs:139-144 | File `j` is named after size `j` and holds that size's PNG |
| GenIcons.GenerateIcons | scripts/gen-icons.mjs:139-144 | One file per size, in order, for the sizes 192 and 512 |

## Left out

- The language model call (`generateObject` with its system prompt and schema) is a
  parameter: its structured answer, or the error it throws. The rest of `analysisSchema` is not checked.
- The database is in memory: tables are sequences and maps in `Db.Database`. Its parts:
  - SQL, transactions, cascading deletes, `updatedAt` and `revalidatePath` are not modelled;
  - row ids are numbers drawn from a counter, not cuid strings;
  - a failing write is the `storeFault` parameter, and the store's own error text
    is the constant `Settings.RecordNotFound`.
- Ordering follows these rules:
  - Rows with equal `orderBy` keys come back in insertion order. The database itself
    promises no order for ties.
  - String keys (`startTime`) are ordered by code point, both in the database and in
    `localeCompare`. Locale collation is not modelled.
- The order of members in the stored JSON columns is not modelled. The previous
  analysis is printed in the key order the handler writes.
- The identity provider's session lookup is an `Option<UserId>`. Webhook signature
  verification is an `Option<Event>`, `None` for a bad signature. An event of a type the
  handler ignores is `OtherEvent`, without its payload.
- A request body that is not JSON makes `request.json()` throw. The model gives that
  as the reply `Thrown`.
- `src/lib/settings-constants.ts` is not part of this model. The known routes are the
  three of the settings form's labels. The default routes are assumed to be the same
  three.
- Time comes in as milliseconds since the epoch. Time zones and `toLocaleString` are
  not modelled.
- `parseInt` is modelled for decimal text. Its other radix prefixes do not arise for
  the explicit radix 10.
- In the favicon script, compression is the `deflate` parameter. Writing the file
  and the console message are not modelled.
- In the icon script, the floating-point geometry of `isLetterR` and
  `roundedCornerAlpha` (with the normalised coordinates) is the abstract `GenIcons.Shape`.
  So sizes for which `size - 1` is 0 are not distinguished. Compression, the output
  directory, the file writes and the console messages are left out too.
- Comments in the favicon script speak of an "R" but the glyph data draws an L and an
  H. The model follows the data.
- `Buffer.allocUnsafe` contents are not modelled. Every byte of such a buffer is written
  before it is read.
- Bytes.WriteUInt32BE: requires the value to be below 2^32. The Node method throws a range error
  instead, which no caller here reaches.
- Crc.Crc32Range: requires `end` to be within the buffer. The script reads `undefined`
  past the end, which no caller here does.
- Crc.BuildTable: the table is proved equal to the eight-round definition. That this
  table-driven CRC equals the bit-serial CRC of section 5.5 of the PNG specification is
  checked only on the IEND chunk and two table entries.
- The service worker's `skipWaiting`, `clients.claim`, `waitUntil` and `respondWith`
  are not modelled. The asynchronous cache writes are taken to finish before the next
  event, so the model fixes an order the browser does not promise.
- WeekCarousel.AddFromSlideAsWrittenLosesDay: stops at the call to the action. What the
  store does with `weekday: undefined` is not modelled.
- The day slide's `handleDelete` and its toast on failure are not modelled. The delete
  path is covered by the reducer (`DaySlide.DeleteSpec`) and the action
  (`ScheduleActions.DeleteScheduleEntry`).
- The `ActivityRow` UI and other presentation components are not modelled.
- ActivityForm.ParseInt: returns an unbounded integer. JavaScript's `parseInt` returns a
  double, so a digit string above 2^53 loses precision. The time fields it reads have
  at most a few digits.
- ServiceWorker.Caches.Put: stores any response. The browser's `Cache.put` rejects a
  206 (partial content) response. The model does not distinguish status 206.
- ActivityForm.WarningFor: the warning text is given by its definition, with no
  lemma of its own.

## Findings

| source | as written | input that shows it | evidently intended | confidence | as-written member | corrected member |
|---|---|---|---|---|---|---|
| src/components/schedule/week-carousel.tsx:41-45 | The carousel renders each `DaySlide` with `day` and `entries` but no `weekday`, so `handleAdd` calls `createScheduleEntry(undefined, …)` | Any add from any slide, e.g. a 09:00-10:00 activity added on Tuesday | Slide `i` passes weekday `i`, so the stored row appears on that day's slide | medium, not executed | WeekCarousel.AddFromSlideAsWrittenLosesDay | WeekCarousel.AddFromSlideLandsOnItsDay |
| src/server/actions/settings.ts:19-20 | The defaults are returned only when `user?.visibleRoutes === null`; with no row the expression is `undefined`, which is not `null`, so the action returns `undefined` | A signed-in user whose webhook row has not arrived yet | The defaults, as for a user with a null column | medium, not executed | Settings.SignedInWithoutRowGetsUndefined | Settings.VisibleRoutes |
| src/app/api/webhooks/clerk/route.ts:21 | A `user.deleted` payload is the provider's deleted-object record, whose `id` is optional. The handler passes `data.id` into `deleteMany({ where: { id: data.id } })`, and the store reads a filter field that is `undefined` as no condition | A `user.deleted` event whose payload has no `id` | Delete nothing, or only the named user | low, not executed: depends on the provider ever omitting the id | ClerkWebhook.DeletedWithoutIdRemovesEveryone | ClerkWebhook.DeleteUserRemovesAtMostOne |
