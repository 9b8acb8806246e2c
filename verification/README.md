# Campaign Office Core, modelled in Dafny

This project models the core of the Campaign Office Core WordPress plugin, which runs a
political campaign's office. It covers five parts:

- **Contact manager** (`CP_Contact_Manager`): the shared contact table with its unique
  email, `find_or_create`'s deduplicating upsert, the allow-listed `update`, and `get_all`'s
  pagination.
- **Event manager** (`CP_Event_Manager`): the meta-box save, the expansion of a recurring
  event into child events (interval map, 52-occurrence cap, meta copy, parent marker), the
  RSVP headcount and capacity rules, and the `handle_event_rsvp` pipeline.
- **Volunteer manager** (`CP_Volunteer_Manager`):
  - the public signup handler with its per-IP counter of three submissions;
  - `get_client_ip`'s header order;
  - the cleaning of list fields;
  - the bulk actions, the single delete and the admin list pagination.
- **Calendar** (`CP_Event_Calendar_Enhancements`): the month grid, the date bounds of the
  period query, the location meta save and the map address line.
- **iCalendar export**: `escape_ical`, the document `generate_ical` writes, and the
  `handle_ical_export` entry point.

The database, WordPress and PHP are stated as plain values:

- Tables are maps from id to row, together with the next AUTO_INCREMENT id.
- Post meta is a map from each key to its rows' values, in row order.
- Request arrays are maps from string to string.
- What the host decides is a parameter: the sanitizers, `is_email`, `strtotime`, nonce
  checks, the rate limiter, and whether each INSERT succeeds.

The files are:

| file | module | what |
|---|---|---|
| `wrappers.dfy` | Wrappers | Option and Result |
| `php.dfy` | Php | `??`, `empty()`, `trim`, `strtoupper`, integer printing, `sprintf('%02d')`, byte-wise string order |
| `host.dfy` | Host | the WordPress and PHP library calls as an uninterpreted record of functions |
| `civil.dfy` | Civil | Gregorian dates, day numbers, `DateInterval` steps, `date('w')`, `date('t')`, `Y-m-d` formatting |
| `schema.dfy` | Schema | the once-per-version table creation gates |
| `paging.dfy` | Paging | `LIMIT`/`OFFSET` pages and `ceil` page counts |
| `posts.dfy` | Posts | the post store: `get_post_meta`, `update_post_meta`, `wp_insert_post`, `wp_delete_post` |
| `contacts.dfy` | Contacts | the contact manager |
| `events.dfy` | Events | meta save and recurring expansion |
| `recurrence.dfy` | Recurrence | the date walk and the 52-occurrence cap |
| `rsvp.dfy` | Rsvp | the RSVP table, capacity and the RSVP handler |
| `volunteers.dfy` | Volunteers | the volunteer manager |
| `calendar.dfy` | Calendar | the calendar views, the period query, location meta and map |
| `ical.dfy` | Ical | the iCalendar export |

## Model

| member | source | states |
|---|---|---|
| Php.Empty | includes/contact-manager.php:128 | `empty()` of a string holds exactly for "" and "0" |
| Php.Coalesce | includes/event-management.php:454-456 | `$a[$k] ?? $d` is the entry when the key is present and the default otherwise |
| Php.Trim | includes/volunteer-management.php:682 | `trim`: the blanks are stripped from both ends, the left end first |
| Php.TrimLeft | includes/volunteer-management.php:682 | the result is a suffix of the input, starts with a non-blank, and only blanks were removed |
| Php.TrimRight | includes/volunteer-management.php:682 | the result is a prefix of the input, ends with a non-blank, and only blanks were removed |
| Php.ToUpper | includes/volunteer-management.php:324 | same length; each character is upper-cased on its own |
| Php.Decimal | includes/event-management.php:234 | the printed integer is a non-empty digit string, one digit long exactly below 10 |
| Php.DecimalRoundTrip | includes/event-management.php:234 | reading a printed integer back gives the integer |
| Php.DecimalOfPositiveNotEmpty | includes/event-management.php:243 | a positive id prints as a value `empty()` finds false |
| Php.Fixed2 | includes/event-calendar-enhancements.php:250 | `%02d` of 0..99 is two digits |
| Php.Fixed2Order | includes/event-calendar-enhancements.php:250 | two-digit numerals compare as strings exactly as their numbers compare |
| Php.Fixed2Injective | includes/event-calendar-enhancements.php:250 | distinct numbers give distinct two-digit numerals, and conversely |
| Php.Fixed4Order | includes/event-calendar-enhancements.php:336-337 | four-digit years compare and coincide as strings exactly as numbers |
| Php.LexLess | includes/event-management.php:450 | PHP 8's comparison of two strings that are not both numeric: the first differing character decides, and a proper prefix is smaller |
| Php.LexLeq | includes/event-calendar-enhancements.php:350-351 | the string `<=` of the period bounds: equal, or smaller in that order |
| Php.LexLessAppend | includes/event-calendar-enhancements.php:350-351 | byte-wise order on concatenations with equal-length heads is decided head first |
| Php.LexLessProperPrefix | includes/event-calendar-enhancements.php:355 | a string is below itself extended by a non-empty suffix |
| Php.LexLessIrreflexive | includes/event-calendar-enhancements.php:350-351 | no string is below itself |
| Host.Absint | includes/event-management.php:234 | `absint`: the absolute value of the host's `intval` |
| Host.AbsintOr | includes/event-management.php:438 | `absint($a[$k] ?? $d)`: `absint` of the entry when the key is set, the default otherwise |
| Host.DateOrEpoch | includes/event-calendar-enhancements.php:252 | an unparsable date reads as the epoch day; every result is a valid date |
| Civil.DaysInMonth | includes/event-calendar-enhancements.php:248 | `date('t')` lies between 28 and 31 |
| Civil.DayNumberOrder | includes/event-management.php:292-295 | comparing day numbers orders dates as (year, month, day) in turn, and equal numbers mean equal dates |
| Civil.YearsIncrease | includes/event-management.php:292-295 | a later year starts at least a whole year later |
| Civil.MonthsIncrease | includes/event-management.php:292-295 | a later month starts at least a whole month later |
| Civil.FirstOfNextMonth | includes/event-management.php:283 | the first of the next month is one month length after the first of this one |
| Civil.NextDay | includes/event-management.php:293 | the next day is a valid date one day number later |
| Civil.AddDays | includes/event-management.php:280-282 | adding `PnD` gives a valid date exactly n day numbers later |
| Civil.AddMonth | includes/event-management.php:283 | adding `P1M` moves the month up by one and the day overflows into the month after as PHP does |
| Civil.Weekday | includes/event-calendar-enhancements.php:226 | `date('w')` is below 7 |
| Civil.WeekdayExamples | includes/event-calendar-enhancements.php:226 | 1970-01-01 is a Thursday and 2024-01-01 a Monday |
| Civil.FirstOfMonth | includes/event-calendar-enhancements.php:224 | a valid date on day 1 of the same year and month |
| Civil.LastOfMonth | includes/event-calendar-enhancements.php:225 | a valid date in the same year and month, on its day `date('t')` |
| Civil.FormatDateLength | includes/event-calendar-enhancements.php:252 | `Y-m-d` of a four-digit year is ten characters, the `Y-m` rendering, a dash and the two-digit day |
| Civil.FormatDateInjective | includes/event-calendar-enhancements.php:252 | distinct four-digit-year dates render to distinct `Y-m-d` keys |
| Civil.FormatDateOrder | includes/event-calendar-enhancements.php:350-351 | on four-digit years, string order of `Y-m-d` keys is date order |
| Schema.VersionLess | includes/contact-manager.php:70 | `version_compare` with `<`: the first differing part decides, and a proper prefix is older |
| Schema.StoredVersion | includes/contact-manager.php:67 | the recorded version, "0" when no option is stored |
| Schema.VersionLessIrreflexive | includes/contact-manager.php:70 | no version is below itself |
| Schema.VersionLessAsymmetric | includes/contact-manager.php:70 | two versions are never each below the other |
| Schema.MaybeCreateTable | includes/contact-manager.php:66-74 | the table is created exactly when the stored version is below the code's, and only then is the option rewritten |
| Schema.FreshSiteCreates | includes/volunteer-management.php:63-72 | a site with no recorded version creates both tables |
| Schema.MaybeCreateTableIdempotent | includes/contact-manager.php:66-74 | a second run right after the first creates nothing and changes nothing |
| Schema.NewerStoredVersionSkips | includes/volunteer-management.php:63-72 | a stored version newer than the code's never recreates the table |
| Paging.CeilDiv | includes/contact-manager.php:327 | the page count is the least number of pages that holds every row |
| Paging.Window | includes/volunteer-management.php:482-491 | the window holds at most `limit` rows, each the row at `offset + k` |
| Paging.PageOfRow | includes/volunteer-management.php:473-479 | every row is on exactly the page `index / perPage + 1`, which is within the page count |
| Paging.WindowAt | includes/contact-manager.php:314-320 | row k of a window is row `offset + k` of the table |
| Paging.PastLastPageEmpty | includes/contact-manager.php:311-329 | a page past the last is empty |
| Paging.InnerPageFull | includes/contact-manager.php:311-329 | a page before the last is full |
| Paging.PageSizes | includes/volunteer-management.php:473-491 | pages past the last are empty and pages before it are full |
| Posts.HiddenFromAny | includes/event-management.php:262-268 | `'post_status' => 'any'` leaves out exactly the trash and auto-draft statuses |
| Posts.InsertedStatus | includes/event-management.php:300-306 | `wp_insert_post` without a `post_date` dates the post now, so a `future` status is stored as `publish`; every other status is kept, and the visibility to `'any'` never changes |
| Posts.GetMeta | includes/event-management.php:252-255 | `get_post_meta(..., true)` of a key with no rows is "" |
| Posts.UpdatePostMeta | includes/event-management.php:313-322 | the key reads back the value in every row; every other key keeps its rows; existing rows are overwritten, not added to |
| Posts.InsertPost | includes/event-management.php:300-306 | the new post gets the next id, which was unused, and nothing else changes |
| Posts.InsertPosts | includes/event-management.php:300-306 | inserting n posts keeps the store valid and moves the counter by n |
| Posts.InsertPostsKeys | includes/event-management.php:300-306 | after the inserts the ids in use are the old ones and the new block |
| Posts.InsertPostsKeeps | includes/event-management.php:300-306 | every post already there keeps its contents |
| Posts.InsertPostsPlaces | includes/event-management.php:300-306 | the k-th inserted post is at id `nextId + k` |
| Posts.SetMeta | includes/event-management.php:313-322 | only the one post's meta changes; the ids and the counter stay |
| Posts.MetaOf | includes/event-management.php:310 | the meta of a present post, and none once it is deleted |
| Posts.DeletePosts | includes/event-management.php:270-272 | exactly the listed ids are gone and every other post is unchanged |
| Posts.Block | includes/event-management.php:300-306 | the block is the n posts at consecutive ids, in id order |
| Posts.Replace | includes/event-management.php:261-306 | delete then insert: the survivors are unchanged and the inserted posts form the new block, in order |
| Contacts.FindFrom | includes/contact-manager.php:138-141 | a found id has the email; no id is missed in the scanned range |
| Contacts.FindByEmail | includes/contact-manager.php:138-141 | a row is found exactly when some row holds the email |
| Contacts.MergeColumns | includes/contact-manager.php:158-165 | the email is always written; unsubmitted columns are kept; a submitted column is kept when its value is `empty()` |
| Contacts.InsertRowValid | includes/contact-manager.php:177-185 | a new row under the next id with an unused email keeps ids and emails unique |
| Contacts.ReplaceRowValid | includes/contact-manager.php:102 | replacing a row with one whose email no other row holds keeps emails unique |
| Contacts.SanitizedSubmission | includes/contact-manager.php:144-156 | each submitted field sanitized, an omitted one empty and an omitted country "US" |
| Contacts.Merge | includes/contact-manager.php:160-165 | the stored row overwritten by the submitted fields `array_filter` keeps, with the email written back |
| Contacts.FindOrCreate | includes/contact-manager.php:124-190 | empty and invalid emails fail without change; a valid email already stored returns its id even when the UPDATE is refused, and only that row changes, to the merge when the UPDATE is accepted; a new one is inserted under the next id |
| Contacts.MergeIdempotent | includes/contact-manager.php:160-165 | merging the same submission twice is merging it once |
| Contacts.FindOrCreateIdempotent | includes/contact-manager.php:138-175 | with the database accepting the UPDATE, a repeated identical submission returns the same id and leaves the table as the first call left it |
| Contacts.OmittedCountryOverwrites | includes/contact-manager.php:154-165 | an omitted country is submitted as "US" and overwrites a stored country |
| Contacts.UpdatedRow | includes/contact-manager.php:236-246 | each allow-listed column supplied is sanitized by its kind; the rest keep their values |
| Contacts.Update | includes/contact-manager.php:227-259 | true exactly when the row exists, something allow-listed is supplied, the written row differs from the stored one, no other row holds its email and the database accepts the write; the row then reads back as the sanitized update; false changes nothing, and no other row ever changes |
| Contacts.UpdatedRowIgnoresOtherKeys | includes/contact-manager.php:232-246 | the updated row reads the submission only at allow-listed keys |
| Contacts.UpdateIgnoresOtherKeys | includes/contact-manager.php:232-246 | two submissions that agree on the allow-listed keys update identically |
| Contacts.UpdateTwiceIsNoOp | includes/contact-manager.php:227-259 | after a successful update, the same update again reports false and changes nothing |
| Contacts.GetAll | includes/contact-manager.php:311-329 | no result for a zero page size; the total counts every row; the page is the offset window and the page count is the ceiling |
| Events.SaveDetailFields | includes/custom-post-types.php:528-541 | each posted field reads back through its whitelisted sanitizer; an omitted field and every key outside the list keep their rows |
| Events.SaveEventDetails | includes/custom-post-types.php:505-541 | nothing is saved unless the nonce, autosave and capability checks pass; then the date reads back sanitized and the RSVP link through `esc_url_raw`, and no other key changes |
| Events.DetailsSkipGeneratorKeys | includes/custom-post-types.php:528-537 | the details box writes neither the marker nor a recurrence key |
| Events.SaveHooks | campaign-office-core.php:116-118 | the details box, loaded first, then `save_event_meta`: a saved date reads back sanitized, and with its nonce the recurrence flag, pattern and end date read back |
| Events.SaveHooksFrame | includes/custom-post-types.php:528-541 | the save callbacks leave the marker alone, the date unless the details box saves one, and the recurrence keys unless their nonce verifies |
| Events.Refired | includes/event-management.php:213-236 | the meta the priority-10 save callbacks write onto a new child from the same request |
| Events.RefiredArmed | includes/event-management.php:241-255 | a new child is armed for its own expansion exactly when the request saves a non-empty date, ticks the box and posts a non-empty end date |
| Events.UnsavedRequestRefiresNothing | includes/event-management.php:213-236 | a request that saves no box leaves a new child without meta |
| Events.Checkbox | includes/event-management.php:218 | "1" exactly when the field is posted, "0" exactly when it is not |
| Events.ThreeWrites | includes/event-management.php:215-221 | three writes on distinct keys each read back and leave every other key alone |
| Events.SaveRsvp | includes/event-management.php:215-221 | with its nonce, the three RSVP keys read back the posted values; every other key keeps its rows |
| Events.SaveRecurrence | includes/event-management.php:223-229 | with its nonce, the recurrence keys read back, the pattern defaulting to "weekly" |
| Events.SaveCapacity | includes/event-management.php:231-235 | with its nonce, the capacity reads back as `absint` of the field, 0 when omitted |
| Events.KeyGroupsDisjoint | includes/event-management.php:213-236 | the three boxes write disjoint keys |
| Events.AgreeGetMeta | includes/event-management.php:252-255 | keys with the same rows read the same value |
| Events.SaveEventMeta | includes/event-management.php:213-236 | each box's keys are written exactly when that box's nonce verified |
| Events.SaveEventMetaFrame | includes/event-management.php:213-236 | every key outside the verified boxes keeps its rows |
| Events.SavedFlagArmsExpansion | includes/event-management.php:247-250 | after the save the expansion is armed exactly when the checkbox was ticked; an omitted pattern repeats weekly |
| Events.PlannedDates | includes/event-management.php:252-297 | at most 52 dates, none when either date is empty or fails to parse |
| Events.Proceeds | includes/event-management.php:243-259 | the three early returns: an unmarked post, the recurring flag exactly "1", and both dates non-empty |
| Events.CopyRowsAsWritten | includes/event-management.php:315-317 | the per-value copy leaves the key present |
| Events.CopyRowsKeepsLast | includes/event-management.php:315-317 | on a key with at most one row, the per-value copy leaves one row holding the last value |
| Events.ChildMetaAsWritten | includes/event-management.php:310-322 | as written, the child keeps the meta the re-fired save left on it and gains every inherited key with only its last value, its own date and the parent marker |
| Events.ChildMetaAsWrittenIsCopyLoop | includes/event-management.php:311-318 | the written child meta is what the per-value loop leaves on each inherited key |
| Events.ChildMetaAsWrittenDropsValues | includes/event-management.php:315-317 | a parent key with two values reaches the child with only the second |
| Events.ChildMeta | includes/event-management.php:310-322 | the corrected copy: every value of every inherited key, the child's own date and the marker (`Events.ChildMetaCopiesAll`) |
| Events.ChildMetaCopiesAll | includes/event-management.php:310-322 | the corrected copy keeps every value of every inherited key, the child's own date and the marker |
| Events.ChildMetaAgreesOnSingleRows | includes/event-management.php:310-322 | the corrected and written copies agree when no parent key has two values |
| Events.ChildPost | includes/event-management.php:300-322 | the post `wp_insert_post` makes for one date: the parent's title, content and author, `Posts.InsertedStatus` of its status (a scheduled parent's child is published), with the copied meta; it is found as the parent's child (`Events.ChildFound`) |
| Events.Children | includes/event-management.php:300-322 | one child per date, in date order, each the copy written over the meta the re-fired save left |
| Events.Found | includes/event-management.php:262-268 | a `cp_event` post outside trash and auto-draft with a marker row equal to the parent id |
| Events.ChildFound | includes/event-management.php:262-268 | a child is found as its parent's child exactly when the parent's status is visible to `get_posts` |
| Events.ChildrenFound | includes/event-management.php:262-268 | every child of a visible parent is found as that parent's child |
| Events.FoundIds | includes/event-management.php:262-268 | the ids `get_posts` returns for the parent: `cp_event` posts in a listed status carrying the parent's marker |
| Events.GenerateRecurring | includes/event-management.php:241-327 | the store stays valid; when a guard returns early nothing changes |
| Events.GenerateRecurringKeeps | includes/event-management.php:261-272 | when the guards pass, each previous child is deleted and every other post is kept |
| Events.GenerateRecurringInserts | includes/event-management.php:300-324 | when the guards pass, one child per planned date is inserted at consecutive ids |
| Events.ChildIsNotExpanded | includes/event-management.php:243-245 | a child whose marker has been written is never expanded by a later save |
| Events.ReplaceOwnsExactlyNew | includes/event-management.php:261-306 | after the replacement the parent's children are exactly the new block |
| Events.RunOwnsExactlyNew | includes/event-management.php:241-327 | one run on a visible parent keeps the parent and makes the new block exactly its children |
| Events.RegenerationReplacesChildren | includes/event-management.php:261-324 | re-saving a parent replaces its children instead of adding to them |
| Events.Newborn | includes/event-management.php:300-306 | the post `wp_insert_post` hands to the re-fired save: the parent's title, content and author, `Posts.InsertedStatus` of its status, and the meta the save callbacks left |
| Events.RunAsWritten | includes/event-management.php:241-327 | as the hooks run it, a post the guards stop is left as it is, and a run that returns keeps the store valid |
| Events.InsertChildren | includes/event-management.php:289-325 | an insert loop that returns keeps the store valid |
| Events.ArmedRunNeverReturns | includes/event-management.php:300-306 | a run with a date to insert never returns while the re-fired save arms each new child |
| Events.FirstInsertNeverReturns | includes/event-management.php:300-306 | under arming callbacks, the first insert of a loop starts a run that never returns |
| Events.RecurringSaveNeverReturns | includes/event-management.php:241-306 | an admin save of an unmarked recurring event whose run plans a child never returns, whatever the fuel |
| Events.SavedParentPlansLikeChild | includes/event-management.php:252-297 | metas that agree on the date, end date and pattern plan the same dates |
| Events.RecurringSaveExample | includes/event-management.php:223-229 | saving a weekly event from 2024-01-01 to 2024-01-15 with the box ticked arms every new child, and the run plans one |
| Events.ExamplePlansAChild | includes/event-management.php:275-297 | a weekly event from 2024-01-01 to 2024-01-15 plans a child |
| Events.PlannedDatesParsed | includes/event-management.php:252-297 | with both dates parsing, the planned dates are the capped occurrences for the stored pattern |
| Events.InertRefireAgrees | includes/event-management.php:241-327 | when the re-fired save leaves a child unarmed, the run as written returns after one level with the result of `GenerateRecurring` |
| Events.InertRunStep | includes/event-management.php:261-325 | one level over unarmed children is the deletion followed by the inserts |
| Events.ParentSurvivesDeletion | includes/event-management.php:261-272 | the deletion keeps a parent that is not its own child |
| Events.InertInsertsAgree | includes/event-management.php:300-322 | the insert loop over unarmed children inserts exactly the finished children, in order |
| Recurrence.Walk | includes/event-management.php:292-297 | the walk is empty exactly when one step passes the end, and otherwise starts one step on |
| Recurrence.WalkChain | includes/event-management.php:292-297 | consecutive dates are one step apart, and one more step would pass the end |
| Recurrence.WalkBounded | includes/event-management.php:292-297 | every date is strictly after the start and no later than the end, increasing |
| Recurrence.WalkEvenlySpaced | includes/event-management.php:279-297 | with a fixed-length step, the k-th date is k+1 steps after the start |
| Recurrence.Admit | includes/event-management.php:289-325 | the admitted dates number the accepted inserts, capped, and each is a candidate |
| Recurrence.AdmitIncreasing | includes/event-management.php:292-325 | admitting preserves increasing order |
| Recurrence.AdmitAllAccepted | includes/event-management.php:289-325 | when every insert succeeds and the cap is not reached, every candidate is admitted |
| Recurrence.GenerateDates | includes/event-management.php:289-326 | the `while` loop emits exactly the admitted walk |
| Recurrence.PatternOf | includes/event-management.php:279-286 | "daily", "biweekly" and "monthly" map to their intervals and every other string to weekly |
| Recurrence.Step | includes/event-management.php:293 | a step is strictly later: 1, 7 or 14 days, or one PHP month |
| Recurrence.StepAdvances | includes/event-management.php:293 | every pattern's step advances |
| Recurrence.Occurrences | includes/event-management.php:275-297 | at most 52 dates, each after the start and not after the end, increasing |
| Recurrence.OccurrencesFirst | includes/event-management.php:292-306 | when one step stays within the end and the first insert succeeds, the first occurrence is one step after the start |
| Recurrence.FixedIntervalSpacing | includes/event-management.php:280-282 | daily, weekly and biweekly candidates are k+1 intervals after the start |
| Recurrence.MonthlyDrift | includes/event-management.php:283 | from January 31st the monthly dates are March 3rd and April 3rd |
| Rsvp.Attending | includes/event-management.php:513 | the rows the sum reads: the event's, with status "attending" |
| Rsvp.Headcount | includes/event-management.php:510-516 | the guests of the event's attending rows summed, 0 for no rows; it splits over the table (`Rsvp.HeadcountConcat`) |
| Rsvp.HeadcountConcat | includes/event-management.php:510-516 | the headcount sums over any split of the table |
| Rsvp.HeadcountAppend | includes/event-management.php:510-516 | a new attending row adds its guests to its own event only |
| Rsvp.HeadcountWithoutAttendees | includes/event-management.php:510-516 | with no attending rows the headcount is 0 |
| Rsvp.CapacityOf | includes/event-management.php:446-450 | "" and "0" are no limit, a string of decimal digits is the limit it spells, any other string is kept as text |
| Rsvp.Rejects | includes/event-management.php:450 | the handler's test: a limit refuses a party that would take the headcount past it, text compares as strings |
| Rsvp.AtCapacity | includes/event-management.php:352 | the form's test: a limit is reached once the headcount is at least the limit |
| Rsvp.CapacityOfDecimal | includes/event-management.php:234 | a saved capacity reads back as that limit, or as no limit when 0 |
| Rsvp.SavedCapacityRule | includes/event-management.php:446-452 | after a save, an RSVP is refused exactly when the saved capacity is positive and would be exceeded |
| Rsvp.SpotsLineOf | includes/event-management.php:363-369 | a numeric limit shows the spots left, which never exceed the limit, are 0 exactly when the headcount has reached it, and otherwise add up with the headcount to it; no limit shows no line |
| Rsvp.RenderRsvpForm | includes/event-management.php:334-422 | the form is disabled exactly when RSVPs are not enabled; the dietary field shows exactly when it is enabled |
| Rsvp.FormCapacity | includes/event-management.php:349-369 | with a limit, "full" exactly at the limit, else positive spots that add up to the limit; no limit means no line |
| Rsvp.SpotsAgreeWithAdmission | includes/event-management.php:363-369 | the spots the form offers are exactly the parties the handler admits |
| Rsvp.ZeroGuestsPassFullEvent | includes/event-management.php:446-452 | a zero-guest RSVP passes the capacity check on a full event |
| Rsvp.GuestsOf | includes/event-management.php:448 | `absint($_POST['guests'] ?? 1)`: one guest when the field is missing |
| Rsvp.Precheck | includes/event-management.php:427-461 | each error is reported exactly when its own check fails and every earlier one passed: nonce, rate limit, event, capacity, then the required fields; all pass exactly when every condition holds |
| Rsvp.ContactStep | includes/event-management.php:467-478 | with the manager loaded, success names a contact holding the submitted email; failure changes nothing |
| Rsvp.ContactData | includes/event-management.php:467-472 | the contact handed to `find_or_create`: the sanitized first and last name, email and phone, "" for a missing phone |
| Rsvp.NewRow | includes/event-management.php:481-487 | the inserted row: the event id, the contact id, the guests, the sanitized dietary note and the status "attending" |
| Rsvp.HandleRsvp | includes/event-management.php:427-505 | a failed check changes nothing; success appends one attending row under the next id |
| Rsvp.AcceptedRsvpCounts | includes/event-management.php:481-504 | an accepted RSVP adds its party to its own event's headcount only |
| Rsvp.HandleRsvpKeepsCapacity | includes/event-management.php:446-504 | no request pushes a headcount within a numeric limit past it |
| Volunteers.Candidate | includes/volunteer-management.php:681-683 | the trimmed first entry of a header that lists several addresses |
| Volunteers.FirstPublic | includes/volunteer-management.php:678-689 | the first header whose candidate passes the public-address filter |
| Volunteers.UpToComma | includes/volunteer-management.php:681-683 | the result is the prefix before the first comma |
| Volunteers.UpToCommaOfList | includes/volunteer-management.php:681-683 | the first entry of a comma list is what comes before the comma |
| Volunteers.FirstPublicIsFirstQualifying | includes/volunteer-management.php:674-693 | the chosen header is the first that qualifies, and none is chosen exactly when none qualifies |
| Volunteers.ClientIp | includes/volunteer-management.php:674-693 | the first public header address, else `REMOTE_ADDR`, else 127.0.0.1 |
| Volunteers.ForwardedListWins | includes/volunteer-management.php:676-683 | a forwarded list with a public first entry yields that entry |
| Volunteers.KeepEntry | includes/volunteer-management.php:348 | an entry is kept when `empty()` is false and it is at most 100 long |
| Volunteers.ListField | includes/volunteer-management.php:343-365 | a list field is cleaned when posted as an array, and absent otherwise |
| Volunteers.CleanEntries | includes/volunteer-management.php:343-365 | cleaning never lengthens a list |
| Volunteers.CleanEntriesConcat | includes/volunteer-management.php:343-365 | cleaning distributes over concatenation |
| Volunteers.CleanList | includes/volunteer-management.php:343-353 | the `foreach` builds exactly the cleaned list |
| Volunteers.CleanEntriesMembers | includes/volunteer-management.php:343-365 | an entry is kept exactly when it is non-empty, at most 100 long and the cleaning of a posted entry |
| Volunteers.CleanEntriesAllKept | includes/volunteer-management.php:343-365 | when every entry qualifies, the result is the posted list, cleaned, in order |
| Volunteers.OpportunityOf | includes/volunteer-management.php:367-373 | an opportunity is stored exactly when its `absint` is positive |
| Volunteers.Record | includes/volunteer-management.php:375-383 | the record is "new", from "website_form", with the contact and opportunity |
| Volunteers.Count | includes/volunteer-management.php:275-277 | the stored counter, 0 when the transient is missing |
| Volunteers.ContactData | includes/volunteer-management.php:316-326 | the contact handed to `find_or_create`: sanitized names and email, each optional field sanitized or "" when missing, the state upper-cased |
| Volunteers.Validate | includes/volunteer-management.php:273-303 | each error is reported exactly when its own check fails and every earlier one passed: the counter, the nonce, the required fields, the email, then the name lengths; validation passes exactly when every check holds |
| Volunteers.Bump | includes/volunteer-management.php:306-310 | the counter of the IP goes up by one, a missing counter reading as 0 |
| Volunteers.ContactStep | includes/volunteer-management.php:316-331 | with the manager loaded, success names an existing contact; failure changes nothing |
| Volunteers.SkillsTooLongIn | includes/volunteer-management.php:335-339 | a posted skills field is too long exactly when its sanitized text exceeds 1000 characters; a missing one never is |
| Volunteers.Register | includes/volunteer-management.php:305-414 | the counter moves; failure inserts nothing; success inserts the record under the next id; over-long skills refuse |
| Volunteers.Signup | includes/volunteer-management.php:271-415 | a failed check changes nothing; a passed one moves the counter; success inserts the record |
| Volunteers.RunAll | includes/volunteer-management.php:271-415 | a run of signups keeps the contact table valid |
| Volunteers.ThreeCountedThenRefused | includes/volunteer-management.php:275-310 | no sequence of requests moves an IP's counter past three |
| Volunteers.Ids | includes/volunteer-management.php:636 | the ids are exactly the `absint` of the posted ids |
| Volunteers.DeleteAll | includes/volunteer-management.php:638-642 | exactly the listed ids' rows are removed and the others are unchanged |
| Volunteers.SetStatusAll | includes/volunteer-management.php:643-652 | exactly the listed rows get the status; ids with no row are skipped |
| Volunteers.BulkAction | includes/volunteer-management.php:629-655 | "delete" removes the listed rows, "contacted" and "active" set the status, anything else changes nothing |
| Volunteers.DeleteVolunteer | includes/volunteer-management.php:662-667 | exactly the one row is removed |
| Volunteers.AdminList | includes/volunteer-management.php:446-491 | a search longer than 100 characters is refused; otherwise the page window and page count |
| Volunteers.AdminListShowsEveryRow | includes/volunteer-management.php:473-491 | every listed row appears on the page its index names |
| Volunteers.AdminActions | includes/volunteer-management.php:420-443 | no capability stops with nothing changed; a bulk or delete request changes the table only with its nonce and `delete_posts`; a verified delete is `delete_volunteer` |
| Volunteers.AdminPageAsWritten | includes/volunteer-management.php:420-478 | as written the page never lists: it stops at the first call on the undeclared `$wpdb` exactly when the actions pass and the search is at most 100 characters |
| Volunteers.AdminScreen | includes/volunteer-management.php:420-491 | with `$wpdb` declared, the page lists exactly when the actions pass and the search is accepted, and then shows `Volunteers.AdminList`'s page |
| Calendar.EventDay | includes/event-calendar-enhancements.php:252 | an event's day is the `Y-m-d` of the host's reading of its date, the epoch day when the date does not parse |
| Calendar.OnDay | includes/event-calendar-enhancements.php:251-253 | the events whose day renders as the key, in query order |
| Calendar.DayCell | includes/event-calendar-enhancements.php:249-270 | the cell carries its day number and is marked today exactly when its key is today's |
| Calendar.MonthGridAsWritten | includes/event-calendar-enhancements.php:223-281 | the grid as written, each cell keyed by the raw request value and the day (`Calendar.AsWrittenGridEmpty`) |
| Calendar.MonthGrid | includes/event-calendar-enhancements.php:223-281 | the grid with each cell keyed by the day it shows (`Calendar.MonthGridLayout`, `Calendar.MonthGridPlacesEvents`) |
| Calendar.Cells | includes/event-calendar-enhancements.php:243-270 | as many cells as blanks plus keys |
| Calendar.MonthStart | includes/event-calendar-enhancements.php:224 | a valid first of a month |
| Calendar.MonthLength | includes/event-calendar-enhancements.php:248 | between 28 and 31 days |
| Calendar.AsWrittenKeys | includes/event-calendar-enhancements.php:250 | one key for each of the n days |
| Calendar.MonthKeys | includes/event-calendar-enhancements.php:250 | one key for each day of the month |
| Calendar.MonthGridLayout | includes/event-calendar-enhancements.php:243-249 | one blank per weekday before the first, then one cell per day in order |
| Calendar.DayCellAccounts | includes/event-calendar-enhancements.php:261-270 | the shown events and the "+ N more" account for every event of the day |
| Calendar.MonthKeyMatches | includes/event-calendar-enhancements.php:250-252 | the key of day d matches an event exactly when the event is on day d |
| Calendar.MonthGridPlacesEvents | includes/event-calendar-enhancements.php:249-253 | each event is in the cell of its own day and no other |
| Calendar.MonthGridMarksToday | includes/event-calendar-enhancements.php:255 | a cell is marked today exactly when it is today's day |
| Calendar.NoMatchNoEvents | includes/event-calendar-enhancements.php:251-253 | a key no event renders to gets no events |
| Calendar.AsWrittenGridEmpty | includes/event-calendar-enhancements.php:250 | as written, a ten-character request value leaves every cell empty |
| Calendar.AsWrittenCellEmpty | includes/event-calendar-enhancements.php:250 | as written, each cell of such a grid is empty |
| Calendar.KeyOfOtherLengthMisses | includes/event-calendar-enhancements.php:252 | a key that is not ten characters long matches no four-digit-year event |
| Calendar.AsWrittenAgreesOnYearMonth | includes/event-calendar-enhancements.php:198 | with a `Y-m` request value, the written grid is the corrected one |
| Calendar.LowerBoundSelects | includes/event-calendar-enhancements.php:350 | a stored value of day d is at or after day a's bound exactly when d is not before a |
| Calendar.UpperBoundSelects | includes/event-calendar-enhancements.php:351 | a stored value of day d is at or before day b's bound exactly when d is not after b |
| Calendar.RangeSelects | includes/event-calendar-enhancements.php:350-355 | a stored date lies between the bounds exactly when its day lies between them |
| Calendar.MonthPeriodSelects | includes/event-calendar-enhancements.php:335-337 | the month view queries exactly the events in the month it draws |
| Calendar.RollingPeriodSelects | includes/event-calendar-enhancements.php:338-341 | the other views query the thirty-one days from the requested date |
| Calendar.PeriodFor | includes/event-calendar-enhancements.php:335-341 | the month around `$date-01` for the month view, else `$date` to thirty days on (`Calendar.MonthPeriodSelects`, `Calendar.RollingPeriodSelects`) |
| Calendar.InPeriod | includes/event-calendar-enhancements.php:350-351 | a stored date is in the period when it is at least the start and at most the end followed by " 23:59:59", both compared as strings |
| Calendar.Listed | includes/event-calendar-enhancements.php:343-355 | the query lists a published `cp_event` whose date row is present, non-empty and in the period |
| Calendar.CalendarRows | includes/event-calendar-enhancements.php:343-355 | the rows the period query returns (`Calendar.RowsFrom`) |
| Calendar.RowsFrom | includes/event-calendar-enhancements.php:343-355 | the rows are exactly the posts the query lists at ids from `from` on, each as its row |
| Calendar.RenderCalendarView | includes/event-calendar-enhancements.php:208-218 | "month" draws the grid as written over the period's rows, "week" the week, and any other view the list |
| Calendar.MonthViewShowsQueriedEvents | includes/event-calendar-enhancements.php:208-281 | every event the month view queries is drawn in the cell of its own day |
| Calendar.CalendarShortcode | includes/event-calendar-enhancements.php:173-203 | the month grid exactly when the view attribute is "month" or absent, the week exactly when it is "week" |
| Calendar.AjaxCalendar | includes/event-calendar-enhancements.php:499-511 | an error exactly when the nonce fails; otherwise the month grid exactly when the sanitized posted view, defaulting to "month", is "month" |
| Calendar.ShortcodeDrawsCorrectGrid | includes/event-calendar-enhancements.php:173-218 | with a `Y-m` date the shortcode's month view is the corrected grid |
| Calendar.ShortcodeShowsQueriedEvents | includes/event-calendar-enhancements.php:173-281 | with a `Y-m` date every event the shortcode's month view queries is drawn in the cell of its own day |
| Calendar.AjaxDayDateDrawsNothing | includes/event-calendar-enhancements.php:499-511 | a posted ten-character date draws a month with every cell empty and none marked today |
| Calendar.Join | includes/event-calendar-enhancements.php:379 | `implode`: the parts with the separator between consecutive ones, "" for none; `Calendar.JoinAppend` states that one more part adds the separator and that part |
| Calendar.LocationKeyInjective | includes/event-calendar-enhancements.php:160-165 | distinct fields are stored under distinct keys |
| Calendar.SaveFields | includes/event-calendar-enhancements.php:160-165 | every key that is not a location field's keeps its rows |
| Calendar.SaveFieldsWrites | includes/event-calendar-enhancements.php:160-165 | a posted field reads back sanitized; an unposted one keeps its rows |
| Calendar.SaveLocationMeta | includes/event-calendar-enhancements.php:145-166 | nothing is saved without the nonce, during autosave or without the capability; only location keys change |
| Calendar.Truthy | includes/event-calendar-enhancements.php:379 | `array_filter` keeps exactly the parts `empty()` finds false, and never lengthens the list |
| Calendar.MapAddress | includes/event-calendar-enhancements.php:368-379 | without coordinates the notice; otherwise the truthy parts joined by ", " |
| Calendar.MapAddressAllParts | includes/event-calendar-enhancements.php:379 | with every part set, venue, address, city and state joined by ", " |
| Calendar.MapAddressSkipsUnset | includes/event-calendar-enhancements.php:379 | an unset part leaves no empty slot |
| Calendar.SavedReadsBack | includes/event-calendar-enhancements.php:158-165 | a field of a full location form reads back sanitized |
| Calendar.SavedLocationMaps | includes/event-calendar-enhancements.php:145-379 | saving a full location form and drawing its map shows exactly the saved parts |
| Ical.ReplaceAll | includes/event-calendar-enhancements.php:469-470 | `str_replace` of one non-empty pattern: matches taken left to right without overlap, and replaced text not searched again |
| Ical.EscapeIcal | includes/event-calendar-enhancements.php:468-472 | the five replacements in order; one pass (`Ical.EscapeIcalIsOnePass`) with no CR or LF left (`Ical.EscapeIcalNoLineBreaks`) |
| Ical.EscapeIcalIsOnePass | includes/event-calendar-enhancements.php:468-472 | the five `str_replace` passes amount to one left-to-right pass |
| Ical.EscapeIcalNoLineBreaks | includes/event-calendar-enhancements.php:468-472 | no CR or LF is left after escaping |
| Ical.OnePassNoLineBreaks | includes/event-calendar-enhancements.php:469 | the one-pass escaping leaves no CR or LF |
| Ical.EscapeIcalLineBreaks | includes/event-calendar-enhancements.php:469 | CRLF, LF and CR each become one `\n` |
| Ical.EscapeIcalSeparators | includes/event-calendar-enhancements.php:470 | commas and semicolons gain a backslash; other characters pass unchanged |
| Ical.EscapeIcalKeepsBackslash | includes/event-calendar-enhancements.php:468-472 | a backslash passes through unescaped |
| Ical.EscapeIcalLosesBackslash | includes/event-calendar-enhancements.php:468-472 | a text with a backslash before an `n` reads back as a line break |
| Ical.EscapeText | includes/event-calendar-enhancements.php:468-472 | the corrected escaping leaves no CR or LF |
| Ical.UnescapeEscapeText | includes/event-calendar-enhancements.php:468-472 | reading the corrected escaping back gives the text with LF line breaks |
| Ical.NewlinesWithoutCr | includes/event-calendar-enhancements.php:469 | a text without CR keeps its line breaks |
| Ical.EscapeTextRoundTrip | includes/event-calendar-enhancements.php:468-472 | the corrected escaping reads back as the text, up to line-break spelling |
| Ical.IcalLines | includes/event-calendar-enhancements.php:447-460 | fourteen lines, opening with VCALENDAR and VEVENT and closing with their END lines |
| Ical.IcalLinesParts | includes/event-calendar-enhancements.php:447-460 | the header, the eight fields and the footer |
| Ical.Serialize | includes/event-calendar-enhancements.php:447-460 | the `.=` chain: each line followed by CRLF, in order; `Ical.ParseSerialize` splits it back |
| Ical.CrIndex | includes/event-calendar-enhancements.php:447-460 | the position of the first CR, or the length when there is none |
| Ical.ParseSerialize | includes/event-calendar-enhancements.php:447-462 | splitting the document at its CRLFs gives back its lines when none holds a CR |
| Ical.FieldLinesNoCr | includes/event-calendar-enhancements.php:451-458 | the field lines hold no CR once the texts are escaped |
| Ical.IcalDocumentLayout | includes/event-calendar-enhancements.php:447-462 | the document is fourteen CRLF lines, VCALENDAR around VEVENT |
| Ical.DocumentFieldLines | includes/event-calendar-enhancements.php:453-457 | the DTSTART, DTEND, SUMMARY and LOCATION lines read back |
| Ical.Stamp | includes/event-calendar-enhancements.php:443-445 | the host's UTC stamp of the parsed time, and of the epoch when `strtotime` fails |
| Ical.EndStamp | includes/event-calendar-enhancements.php:444 | the stamp of the date with " +2 hours", read by the host, so an empty date gives two hours after the clock |
| Ical.GenerateIcalAsWritten | includes/event-calendar-enhancements.php:442-463 | the document with `escape_ical`'s texts (`Ical.GenerateIcalAsWrittenLayout`) |
| Ical.GenerateIcal | includes/event-calendar-enhancements.php:442-463 | the document with the texts escaped as RFC 5545 asks (`Ical.GenerateIcalLayout`) |
| Ical.GenerateIcalLayout | includes/event-calendar-enhancements.php:442-463 | fourteen lines with DTEND two hours after DTSTART and the escaped texts |
| Ical.GenerateIcalAsWrittenLayout | includes/event-calendar-enhancements.php:442-463 | the same layout holds as written, since `escape_ical` removes every CR |
| Ical.IcalExport | includes/event-calendar-enhancements.php:415-437 | a document is produced exactly when both parameters are set and the event is found: a positive id must name a `cp_event`, an id that reads as 0 falls back to the queried post, which must be one and is exported with an empty date and the location ", ", and a negative id exports nothing |
| Ical.IcalExportLayout | includes/event-calendar-enhancements.php:415-437 | an event named by a positive id exports as fourteen lines with DTEND two hours after DTSTART, the escaped title as SUMMARY and the escaped venue and address joined by ", " as LOCATION |
| Ical.ExportOfQueriedPost | includes/event-calendar-enhancements.php:420-431 | an id that reads as 0 exports the queried event as fourteen lines, with its escaped title as SUMMARY, DTEND two hours after DTSTART and the escaped ", " as LOCATION, which `Ical.ExportWithoutAddress` evaluates to `\, ` |
| Ical.ExportWithoutAddress | includes/event-calendar-enhancements.php:427-431 | an event with neither venue nor address gets the LOCATION value `\, ` |

## Left out

- HTML rendering, escaping for HTML (`esc_html`, `esc_attr`, `esc_url`), translation and
  the admin screens beyond their data: only the data each view shows is modelled.
- `render_week_view` and `render_list_view`: the calendar view is modelled as which view is
  drawn over which rows, and only the month grid's contents.
- SQL: collation is taken as byte-wise; `ORDER BY meta_value` and `ORDER BY created_at DESC`
  are not modelled, so rows come in id order or as a given listing; a post with several
  date or venue rows would appear once per row under the `LEFT JOIN`s, and the model lists
  it once.
- Time: `current_time`, `date('Y-m-d')` and the clock are parameters. `strtotime`, `date`
  and `DateTime` parsing are the host's `parseDate`, `strtotime` and `formatUtc` functions. `+30 days` is
  `AddDays` on the parsed date. The time of day of event dates is not modelled.
- Nonces, capabilities, autosave and the RSVP rate limiter are booleans. The volunteer
  counter's one-hour transient expiry is not modelled; the counter is kept forever.
- `log_security_event`, the CSV export, `wp_json_encode` of the stored lists beyond being a
  list, `urlencode` of the map coordinates, and e-mail notifications are not modelled.
- Concurrency between requests is not modelled. Each request runs to completion on the
  state the previous one left.
- `wp_insert_post` fires `save_post_cp_event` on each new child before it returns.
  `Events.RunAsWritten` models that nesting with a `fuel` bound: `None` is a run that has
  not returned within that many nested runs, which stands for PHP running out of stack or
  memory. Every nested run sees the same request, so the details box's nonce, autosave and
  capability checks pass or fail alike for the parent and every child, and every run uses
  the same planning function, that is, the same insert oracle `ok`. What a run does after
  a nested run fails is not modelled. The rest of the model uses `Events.GenerateRecurring`,
  the run over children the re-fired save leaves unarmed; `Events.InertRefireAgrees` shows
  that the two agree whenever the save leaves a new child unarmed.
- Events.ChildIsNotExpanded: it holds of a child once the run that made it has written the
  marker. While `wp_insert_post` is still running, the re-fired callbacks see the child
  without a marker (`Events.RecurringSaveNeverReturns`).
- The hook order is taken from registration: at priority 10 `campaignpress_save_event_meta`,
  whose file is loaded first, then `save_event_meta`, and the expansion at 20.
- Strings are sequences of characters, and `strlen` is their length: the byte count of
  multi-byte UTF-8 text is not modelled, so the name limit and the search limit
  (includes/volunteer-management.php:301, 337, 348, 360, 451) count characters.
- Rsvp.CapacityOf: only capacities of decimal digits, as `absint` writes them, are read
  as numbers. PHP 8 also reads strings such as " 5", "5.5" and "1e3" as numbers and
  compares them numerically; the model compares those as text.
- Contacts.FindOrCreate: whether the database accepts the INSERT and the dedup UPDATE are
  parameters, and a refused UPDATE still returns the id, as the code does not check it.
- `maybe_unserialize` is the identity, since the values are plain strings.
- campaign-office-core.php beyond its load order, includes/custom-post-types.php beyond
  `campaignpress_save_event_meta`, uninstall.php and the JavaScript front end are not part
  of this model.
- Whether the database accepts each child insert is a parameter `ok`. A failed insert
  emits nothing and does not count against the cap, as in the loop.
- Contacts.GetAll: it takes the table's listing in its sorted order as an argument, rather
  than sorting by `created_at`, which the model does not hold.
- Volunteers.AdminList: the status and search filters of the query are applied by the
  caller. The model takes the filtered listing and states the pagination over it.
- Ical.GenerateIcalLayout: it reads back only the DTSTART, DTEND, SUMMARY and LOCATION
  lines. The `UID`, `DTSTAMP`, `DESCRIPTION` and `URL` lines are counted among the fourteen
  but their values are not stated, since they come from host functions.
- Ical.IcalExport: it states when a document is produced; its text is
  `GenerateIcalAsWritten` of the event's date, post date and the venue and address joined
  by ", ", and `Ical.IcalExportLayout` reads back its lines when the host's stamps hold no CR.
  The global `$post` that `get_post(0)` returns on `template_redirect` is the parameter
  `current`; its meta is read as absent, as `get_post_meta(0, …)` reads nothing.
- Posts.UpdatePostMeta: request values are modelled as already unslashed, and the
  `wp_unslash` that `update_post_meta` applies to its value is not modelled. On the save
  paths this changes nothing. On the child copy at includes/event-management.php:315-317
  the values come from the database unslashed, so PHP strips their backslashes once more
  (`C:\new` reaches the child as `C:new`); the model copies them unchanged.
- Events.CopyRowsKeepsLast: it states that the child holds the parent's last value; PHP
  stores that value's `wp_unslash`, which differs when the value holds a backslash.
- Events.ChildMetaAsWritten: each inherited key gets the parent's last value itself, not its
  `wp_unslash`, for the reason given under `Posts.UpdatePostMeta`.
- Events.ChildPost: the title and content are the parent's as stored; `wp_insert_post`
  applies `wp_unslash` to them, so a parent titled `C:\new` has a child titled `C:new` in PHP.
  The same holds of `Events.Newborn`. The status change of `wp_insert_post` is modelled.
- The calendar model applies once its file and script are loaded: campaign-office-core.php:111-119
  loads contact-manager, custom-post-types, volunteer-management and event-management but not
  includes/event-calendar-enhancements.php, and no file of this model enqueues
  assets/js/frontend.js or localizes `campaignOfficeCore.calendarNonce`. What loads them is not
  part of this model.

## Findings

| source | as written | input that shows it | evidently intended | confidence | as-written member | corrected member |
|---|---|---|---|---|---|---|
| includes/event-calendar-enhancements.php:250 | each day's key is `sprintf('%s-%02d', $year_month, $day)` on the raw request value | the calendar script posts `toISOString().slice(0,10)`, a date such as "2024-05-01", so every key reads like "2024-05-01-01", thirteen characters, and matches no ten-character event day: every cell is empty and none is marked today, once the file and the script are loaded by code outside this model | key each cell by the `Y-m-d` of the day drawn, so the month's events appear | medium, not executed | Calendar.AsWrittenGridEmpty | Calendar.MonthGridPlacesEvents |
| includes/event-management.php:315-317 | each value of a multi-valued meta key goes through `update_post_meta`, which overwrites | a parent with two rows under one key, such as "Hall A" and "Hall B" | copy all meta data, every value, as the comment says | medium, not executed | Events.ChildMetaAsWrittenDropsValues | Events.ChildMetaCopiesAll |
| includes/event-calendar-enhancements.php:468-472 | `escape_ical` leaves a backslash unescaped, unlike section 3.3.11 of RFC 5545 | a title holding a backslash followed by `n`, such as `C:\new`, is read back by a client with a line break in place of `\n` | escape the backslash as `\\` before the other characters | medium, not executed | Ical.EscapeIcalLosesBackslash | Ical.EscapeTextRoundTrip |
| includes/event-management.php:300-306 | `wp_insert_post` fires `save_post_cp_event` on the new child before the marker is written, so the save callbacks store the same form on the child and `generate_recurring_events` runs on it with every guard passing | an admin save of a weekly event dated 2024-01-01, with the recurrence box ticked and the end date 2024-01-15 | a child is never expanded, as the comment at line 242 says: mark it before the hooks run | high, not executed | Events.RecurringSaveNeverReturns | Events.RunOwnsExactlyNew |
| includes/volunteer-management.php:456-478 | `$wpdb` is used without `global $wpdb`, so it is null; the first method call on it is fatal | any request by an editor that passes the actions and has a search of at most 100 characters | declare `global $wpdb` and list the volunteers | high, not executed | Volunteers.AdminPageAsWritten | Volunteers.AdminScreen |
