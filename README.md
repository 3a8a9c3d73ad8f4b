# allos-cms member status — a Dafny model

allos-cms keeps the members of a church: who they are, when they attended,
and the follow-up notes pastors write. Its one real rule is the status pass
of `libs/update.js`. It marks every member `New`, `Needs Follow-up` or
`Active` from the member's join date, attendance history and notes, and saves
the members one at a time. Around it sit three small pieces of list logic:

- the members API (`app/api/members/route.js`): the dashboard figures GET
  computes, and the defaults POST fills in;
- the CSV import (`app/api/members/import-csv/route.js`), from the parsed rows on;
- the members table (`components/members-data-table.js`): tab filter,
  search and avatar initials.

This project models those pieces and proves what they guarantee.

Modules:

- `Calendar` (calendar.dfy): JavaScript `Date` arithmetic in one fixed zone
  (UTC). It covers weekday, start of day, `setDate` and `setMonth` with
  their month and year overflow, and "one month ago".
- `MemberSchema` (member_schema.dfy): the stored record, after `models/Member.js`.
- `StatusUpdate` (status_update.dfy): the classifier as a function, and the
  pass as a method over a `MemberCollection` class whose writes may fail.
- `MembersRoute`, `CsvImport`, `MembersTable`: the three list pieces.
- `Seqs`, `Wrappers`, `Http`: `filter`, counting, option and result
  types, and route responses.

Instants are integer milliseconds since 1970-01-01 UTC. A stored date string
`"YYYY-MM-DD"` is its day number. `new Date("YYYY-MM-DD")` is midnight UTC of
that day. The current time (`new Date()`, `Date.now()`) is a parameter `now`.

## What the code does, as opposed to what its names say

- **The "last Sunday" is the most recent Monday.** Line 12 of
  `libs/update.js` goes back `(getDay() + 6) % 7` days. That is 0 days on a
  Monday and 6 on a Sunday. So the reference day is always the Monday at or
  before `now` (`StatusUpdate.LastSundayIsMonday`). An entry dated on the
  Sunday itself never counts (`StatusUpdate.SundayEntryIgnored`). For
  example, with `now` on Monday 2024-06-10, a present entry dated 2024-06-09
  leaves a long-standing member at `Needs Follow-up`. The model keeps the
  code's behaviour throughout.
- **The staleness rule never decides.** A member who attended on the
  reference day has an attendance entry no older than 6 days. "One month ago"
  is at least 28 days back. So the "no or stale `lastAction`" branch
  (`libs/update.js:48`) cannot fire once the attendance test has passed
  (`StatusUpdate.AttendedIsRecent`, `StatusUpdate.ClassifyByAttendance`).
- **One failed save ends the pass.** `member.save()` is awaited with no
  `try`. The first write that fails stops the loop. The members before it
  are saved, and it and every later member are left as they were. The
  error becomes a 500 in `app/api/members/update-status/route.js`. The model
  follows the code (`StatusUpdate.UpdateData`, `StatusUpdate.PassResult`).
  It does not carry on after a failed member, as a fault-tolerant design
  would.
- **A manual `Inactive` is overwritten.** The pass never reads the previous
  status, and never produces `Inactive` (`StatusUpdate.Classify`,
  `StatusUpdate.ClassifyIgnoresStatus`).

## Model

| member | source | states |
|---|---|---|
| Calendar.WeekDay | libs/update.js:12 | `getDay()` is in 0..6 and advances by one each day; 1970-01-01 (a Thursday) is 4 |
| Calendar.StartOfDay | libs/update.js:13 | `setHours(0, 0, 0, 0)` gives the midnight that starts the same day, at most one day before the instant |
| Calendar.WeekDayNext | libs/update.js:12 | one day later, `getDay()` is the next weekday, Saturday (6) wrapping round to Sunday (0) |
| Calendar.SetDate | libs/update.js:12 | `setDate(getDate() + k)` moves the instant by exactly `k` whole days, across month and year ends, so `getDate() - k` goes back `k` days |
| Calendar.SetMonth | libs/update.js:8 | `setMonth(m)` to a month `m` in 0..11 that has the current date keeps the year, date and time of day and lands in month `m` |
| Calendar.MakeDay | libs/update.js:8 | for a month in 0..11, the day is the year's first day plus the days of the earlier months plus the date minus one |
| Calendar.DaysBackStart | libs/update.js:12-13 | midnight after going back `k` days is the start of the day `k` days earlier |
| Calendar.OneMonthAgo | libs/update.js:7-8 | `setMonth(getMonth() - 1)` goes back exactly the length of the previous month, so 28 to 31 days |
| Calendar.OneMonthBeforeMarch31 | libs/update.js:7-8 | one month before 31 March is 3 March (2 March in a leap year): the missing 31 February runs on into March |
| Calendar.MakeDayOfParts | libs/update.js:8 | splitting a day into year, month and date and rebuilding it with `MakeDay` gives the same day |
| Calendar.PartsOfMakeDay | libs/update.js:8 | a date within its month, built with `MakeDay`, splits back into the same year, month and date |
| Calendar.DayFromYearFormula | libs/update.js:7-8 | the year-by-year start of a year equals the closed form JavaScript uses for dates |
| MemberSchema.ParseStatus | models/Member.js:30 | a status string is accepted only when it names the status it is read as |
| MemberSchema.ParseName | models/Member.js:30 | each of the four enum values is stored as a distinct string and reads back as itself |
| StatusUpdate.LastSunday | libs/update.js:11-13 | `lastSunday` is the midnight starting the day `(getDay() + 6) % 7` days before `now`'s day |
| StatusUpdate.LastSundayIsMonday | libs/update.js:11-13 | that day is the most recent Monday at or before `now`, 0 to 6 days back; it is `now`'s own day exactly on a Monday |
| StatusUpdate.ExampleDates | libs/update.js:11-13 | 2024-06-10 is a Monday and its own reference day; 2024-06-09 is a Sunday; 2024-08-01 is a Thursday whose reference day is 2024-07-29 |
| StatusUpdate.ExampleDays | libs/update.js:8-12 | the day numbers used for those dates are what `MakeDay` gives for 2024-06-09, 2024-06-10, 2024-07-29 and 2024-08-01 |
| StatusUpdate.IsNew | libs/update.js:17-18 | `isNew`: a join date is set and `now` is at most 31 days after its midnight |
| StatusUpdate.Dates | libs/update.js:21-29 | `map(x => new Date(x.date))` gives the entries' dates, one per entry, in order |
| StatusUpdate.LatestDay | libs/update.js:19-30 | sorting dates newest first and taking the first gives the maximum of the dates, absent only for no dates |
| StatusUpdate.LastAttendance | libs/update.js:19-24 | `lastAttendance` is missing exactly when the history is empty, and otherwise is the date of some entry, present or not, no earlier than any entry's date |
| StatusUpdate.LastFollowUp | libs/update.js:25-30 | `lastFollowUp` is missing exactly when there is no note, and otherwise is the date of some note, no earlier than any note's date |
| StatusUpdate.Later | libs/update.js:45 | `lastAction` is the later of the last attendance and the last note, ignoring a missing one, and is missing only when both are |
| StatusUpdate.LastAction | libs/update.js:19-45 | `lastAction` is missing exactly when there is neither attendance nor note, and otherwise is the date of an entry or a note, no earlier than any of them |
| StatusUpdate.AttendedOn | libs/update.js:32-38 | `attendedLastSunday`: some entry is marked present and its date falls on the same calendar day as the reference instant |
| StatusUpdate.Classify | libs/update.js:40-53 | the status is never `Inactive`; it is `New` exactly for members joined at most 31 days ago (or in the future); `Active` requires attendance on the reference day |
| StatusUpdate.FutureJoinIsNew | libs/update.js:17-18 | a join date after `now` counts as new |
| StatusUpdate.AttendedOnDay | libs/update.js:32-38 | "same `toDateString()` and present" is: some present entry is dated on the day of the reference instant, and conversely |
| StatusUpdate.AttendedGivesLastAction | libs/update.js:19-38 | whoever attended on the reference day has a `lastAction`, no earlier than that day |
| StatusUpdate.AttendedIsRecent | libs/update.js:45-49 | for such a member `lastAction` is never before `oneMonthAgo`, so the staleness branch cannot fire |
| StatusUpdate.ClassifyByAttendance | libs/update.js:39-53 | the rule in effect: `New` if new, else `Active` exactly when present on the reference day, else `Needs Follow-up` |
| StatusUpdate.ActiveIff | libs/update.js:46-52 | a member who is not new is `Active` exactly when it attended on the reference day and `lastAction` is at least `oneMonthAgo`; otherwise `Needs Follow-up` |
| StatusUpdate.ClassifyIgnoresStatus | libs/update.js:40-53 | the previous status, whatever it was, does not affect the result |
| StatusUpdate.ClassifyOnDay | libs/update.js:11-53 | the rule in effect with the reference day written as `day(now) - (weekday + 6) % 7` |
| StatusUpdate.SundayEntryIgnored | libs/update.js:11-38 | on a Monday, a member who is not new and only has entries dated the day before (a Sunday) needs follow-up, present or not |
| StatusUpdate.PresentOnReferenceDay | libs/update.js:32-51 | a member who is not new and has a present entry on the reference day is `Active`, whatever its notes |
| StatusUpdate.StaleNeedsFollowUp | libs/update.js:46-49 | a member who is not new and has no action in the last 31 days needs follow-up |
| StatusUpdate.Reclassify | libs/update.js:40-53 | the member gets the classified status, and every other field is unchanged |
| StatusUpdate.ClassifyAll | libs/update.js:16-53 | every member is reclassified in place, in order, each from its own record only |
| StatusUpdate.ClassifyAllIdempotent | libs/update.js:16-53 | a second pass with the same `now` changes nothing more |
| StatusUpdate.FirstFailing | libs/update.js:54 | finds the first position whose write fails: all positions before it succeed |
| StatusUpdate.PassResult | libs/update.js:15-55 | after a pass, the members before the first failed save are reclassified; that member and all later ones are as they were; with no failure all are reclassified |
| StatusUpdate.PassIdempotent | libs/update.js:15-55 | rerunning the pass with the same `now` and the same failing writes leaves the stored records unchanged |
| StatusUpdate.MemberCollection.Find | libs/update.js:15 | `Member.find({})` returns fresh documents equal to the stored records, in order |
| StatusUpdate.MemberCollection.Save | libs/update.js:54 | a save stores the document at its position and returns no error, or fails with the error for that position and changes nothing |
| StatusUpdate.UpdateData | libs/update.js:4-56 | the stored records become the pass result; the error returned is that of the first failed save, and there is none when every save succeeded |
| StatusUpdate.UpdateStatus | app/api/members/update-status/route.js:4-11 | the route answers `Member statuses updated.` when every save succeeded, otherwise 500 with the error of the first failed save; either way the pass result is stored |
| MembersRoute.MostRecent | app/api/members/route.js:14 | the `reduce` picks an entry of the history whose date is at least every entry's date |
| MembersRoute.Visit | app/api/members/route.js:12-18 | one turn of the loop never lowers `latestDate`, and any new value is a date from that member's history |
| MembersRoute.LatestAcross | app/api/members/route.js:11-19 | `latestDate` is an attendance date of some member, no earlier than any member's entry; it is `null` exactly when no member has attendance |
| MembersRoute.LatestAttendanceDate | app/api/members/route.js:11-19 | the `forEach` running maximum computes `LatestAcross` of all the members |
| MembersRoute.PresentCount | app/api/members/route.js:21-27 | `presentCount` is 0 without a `latestDate`, and otherwise the number of members with a present entry on that day (so at most `count`, and 0 exactly when nobody is present) |
| MembersRoute.PresentOnLatest | app/api/members/route.js:11-27 | every member counted present has `latestDate` as its own most recent attendance date |
| MembersRoute.FollowUpCount | app/api/members/route.js:29 | `followUpCount` is the number of members whose status is `Needs Follow-up` (so at most `count`, and 0 exactly when there is none) |
| MembersRoute.FollowUpAfterPass | app/api/members/route.js:29 | right after a complete status pass, `followUpCount` counts the members who are not new and were not present on the reference day |
| MembersRoute.Get | app/api/members/route.js:5-40 | GET answers the members with `count` = their number and the three figures above, or a 500 with the error from `find` |
| MembersRoute.WithDefaults | app/api/members/route.js:46-58 | a falsy `joinDate` or `lastAttendance` becomes today; a falsy `status` becomes `New`; a missing history becomes one present entry on the member's `lastAttendance`; other fields pass through |
| MembersRoute.DefaultsIdempotent | app/api/members/route.js:47-58 | filling in the defaults of a record that already has them changes nothing, whatever day it is |
| MembersRoute.Post | app/api/members/route.js:42-64 | POST answers the created member exactly when the body is read and `create` succeeds, otherwise a 500 with the error |
| CsvImport.KeepRow | app/api/members/import-csv/route.js:27 | `row.name && row.phone`: both cells present and non-empty |
| CsvImport.ToRecord | app/api/members/import-csv/route.js:28-34 | a kept row becomes a record with its name and phone, status `Active`, and no `lastAttendance` or `joinDate` |
| CsvImport.RecordsToInsert | app/api/members/import-csv/route.js:26-34 | exactly the rows with a non-empty name and phone give records, at most one per row; none exactly when no row qualifies |
| CsvImport.RecordsOfConcat | app/api/members/import-csv/route.js:26-34 | records keep the order of their rows: the records of two batches of rows are those of the first, then those of the second |
| CsvImport.ImportCsv | app/api/members/import-csv/route.js:8-40 | no file gives 400 `No file uploaded`, a parse error gives 400 `Invalid CSV format`, no valid row gives `success: false, createdCount: 0`; none of these inserts; otherwise the records are inserted and `createdCount` is the number inserted |
| MembersTable.TabFilter | components/members-data-table.js:107-118 | tab `new` keeps exactly the members with status `new`, one row per such member; tab `followup` likewise keeps exactly the members whose follow-up is due; any other tab keeps all; order is kept |
| MembersTable.FollowUpDue | components/members-data-table.js:113-116 | the follow-up test: inactive, never followed up, or last followed up more than 14 days before now |
| MembersTable.IncludesIff | components/members-data-table.js:156-159 | `includes` holds exactly when the query occurs in the text at some position |
| MembersTable.UpperChar | components/members-data-table.js:148 | upper-casing a character leaves no lower-case letter and keeps the letter |
| MembersTable.MatchesSearch | components/members-data-table.js:154-160 | the search test: the lower-cased query occurs in the lower-cased first name, last name or email, or the query as typed occurs in the phone |
| MembersTable.Search | components/members-data-table.js:151-161 | an empty query keeps every member; otherwise exactly those matching it, one row per matching member; order is kept |
| MembersTable.GetInitials | components/members-data-table.js:147-149 | with both names non-empty, two upper-case initials, the first letters of the names; an empty first name gives `UNDEFINED` followed by the upper-cased last initial, an empty last name the first initial followed by `UNDEFINED`; both empty throws |
| Seqs.Filter | app/api/members/import-csv/route.js:27 | `filter` keeps exactly the elements satisfying the test, in their order |
| Seqs.FilterSize | app/api/members/import-csv/route.js:27 | `filter` keeps one element per position that satisfies the test: its length is the number of such positions |
| Seqs.Count | app/api/members/route.js:23-29 | `filter(...).length` is the number of positions satisfying the test: at most the length, and 0 exactly when nothing satisfies it |

## Left out

- MongoDB I/O is not modelled: `connectMongo`, and the connection behind
  `find`, `create`, `insertMany` and `save`. Persistence is a
  `MemberCollection` whose writes at given positions fail. GET and POST take
  the outcome of `find` or `create` as a parameter.
- `connectMongo` is awaited outside the `try` in GET and POST, so a
  connection failure escapes both handlers. This is not modelled.
- StatusUpdate.UpdateData: `Member.find({})` is taken to succeed. A failing
  read, which would also surface as a 500, is not modelled.
- Time zones are not modelled: one fixed zone, UTC. `toDateString`
  comparison is equality of day numbers. Unparseable date strings and the
  `NaN` they give inside sort comparators are not modelled. Stored dates are
  well-formed day numbers.
- StatusUpdate.LatestDay: `sort((a, b) => b - a)[0]` is modelled by its
  result, the maximum. The sort's own order of equal or `NaN` dates is not
  modelled.
- The `csv-parse` call, multipart `formData` and `file.text()` are not
  modelled. The parser is a function from text to rows, or failure.
- `insertMany` and `create` are functions that return the stored documents
  or an error. The schema validation inside them is not modelled.
- MembersRoute.WithDefaults: a POST body's fields other than `joinDate`,
  `lastAttendance`, `status` and `attendanceHistory` are one map of strings.
  Nested values in other fields are not represented.
- MembersTable.Search: `toLowerCase` and `toUpperCase` are modelled for
  ASCII letters only. Other Unicode case mappings are not represented.
- MembersTable.GetInitials: `firstName[0]` is modelled as a whole
  character, not a UTF-16 code unit.
- The update-status route's JSON bodies (`success`, `message`, `error`) are
  reduced to the message or the error and the status code.
- The members table's mock data, its React state and effects,
  `formatDate` (`Intl` formatting) and the status badges are rendering, and
  are not modelled.
- `components/member-profile.js`, the attendance pages, the new-member
  form and page, the dashboard page, the home page and the tutorial page are
  UI and fetch plumbing, and are not part of this model.
