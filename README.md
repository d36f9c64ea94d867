# study_sync_backend — scheduling, makeup and syllabus-progress core in Dafny

This project models the scheduling core of a university timetable backend. In the
original, each route is an Express handler around one or a few SQL queries over
Postgres tables. The model replaces those tables with sequences of records:

- sessions, their weekly dayTime slots and dated occurrences;
- rooms, students, groups, sections and modules;
- attendance rows;
- the makeup, debt and compensation link tables;
- syllabus titles and per-session title progress.

Each route is modelled as a pure function of the tables (`Db`), or as a method of
one `Store` class when it writes. SQL semantics are written out explicitly:

- inner joins drop rows without a partner;
- a LEFT JOIN keeps a row with no partner once and repeats it per partner;
- UNION removes duplicates and UNION ALL keeps them;
- ORDER BY is a stable insertion sort by the query's keys;
- `ROUND` on numerics and `Math.round` round halves up; the model does so in exact integer arithmetic. SQL `ROUND` on a numeric agrees with it, while `Math.round` of a double product can fall just below a half (see "## Left out").

Modules:

- `Common`, `Sorting`, `Tables` — options, filters, sorting, decimal text, and the tables.
- `Rollup` — title-progress counts over the LEFT JOIN and rounded percentages.
- `Makeup` (routes/makeup.js):
  - absences grouped by module;
  - makeup candidates: busy set, overlap, capacity, title-progress rule and order;
  - the select-session decision and its writes;
  - the absence percentage.
- `MakeupLegacy` (routes/MakeupSession.js) — the older makeup route: time parsing, schedule filter, room filter.
- `DebtSessions` (routes/debtSessions.js) — debt-session availability, registration and the semester name.
- `Schedule` (routes/schedule.js):
  - the Saturday–Thursday week window;
  - the four-scope union and colours;
  - day-name normalisation and bucketing;
  - the semester absence rate.
- `Titles` (routes/professormodules.js) — the title forest, next sibling order, the update plan and the subtree relation.
- `ProfessorProgress` (routes/professorModuleprogress.js):
  - the professor's sessions with progress;
  - the recursive title hierarchy and its organisation into a tree;
  - the single upsert and the bulk replace.
- `SessionProgress` (routes/session_progress.js) — a student's modules, sessions and debt sessions, with progress.
- `Store` — every state-changing route as a method on the tables.

## Model

| member | source | states |
|---|---|---|
| Makeup.AbsentRowsOfShape | routes/makeup.js:20-74 | one row per compensation request of an absence, or one row when it has none. The status is the request's status, else `Compensated` when `ismakeup`, else `Absent`. The percentage is the rounded title rollup of the session, at most 100 |
| Makeup.NoJoinNoRows | routes/makeup.js:37-41 | an absence whose occurrence, session, module or dayTime row is missing gives no row (inner joins) |
| Makeup.AbsentRowsFromMember | routes/makeup.js:37-44 | a row is listed iff it comes from an attendance row of the student with `present = false` |
| Makeup.AbsentSessions | routes/makeup.js:18-74 | the rows are exactly the student's absence rows, ordered by date then start time, latest first |
| Makeup.FormatPgArrayTime | routes/makeup.js:125-128 | null iff the array is empty. Otherwise the first five characters of element 0, `HH:MM`, whose two fields read back as the hour and the minute |
| Makeup.FormatTime | routes/makeup.js:497-499 | the listing's time text agrees with formatPgArrayTime: `HH:MM` of element 0, and no value where the empty array makes JavaScript throw |
| Makeup.GroupByModule | routes/makeup.js:99-109 | every row's module gets a group. Module keys come out in ascending order, and each group holds exactly that module's rows in query order |
| Makeup.AbsentSessionsWithProgress | routes/makeup.js:13-115 | `data` is in ascending module id (the order `Object.values` gives integer keys). Each group's absences are that module's rows in query order and never empty, and every absence row is in its module's group |
| Makeup.NextDate | routes/makeup.js:158-162 | None iff no occurrence of the module is later than the absence. Otherwise the earliest later date |
| Makeup.FindAbsent | routes/makeup.js:148-175 | the 404 iff the attendance row is missing, is not that student's, is present, or its occurrence, session or module is missing. Otherwise the info of that join: the occurrence date, the session's module, type, id and group, the module's promotion and name, and the module's next date |
| Makeup.BusyMember | routes/makeup.js:221-271 | an entry is busy iff it comes from one of four sources within the window (from the absence date up to the next date when there is one): a group occurrence not cancelled; a cancelled and compensated group occurrence at its compensation dayTime; a makeup occurrence; a debt-session occurrence |
| Makeup.OverlapsIffCommonInstant | routes/makeup.js:396-405 | the half-open test `start < busyEnd && end > busyStart` holds iff the two intervals share an instant |
| Makeup.BackToBackNeverOverlap | routes/makeup.js:396-405 | slots that touch end to start never conflict |
| Makeup.SessionCapacity | routes/makeup.js:305-325 | available = capacity − distinct group students − distinct makeup students − distinct debt students. Always below the capacity |
| Makeup.ModuleProgressOfAbsence | routes/makeup.js:327-342 | the module_progress join never removes a candidate when it is given the student: the absence itself is an attendance row on the module |
| Makeup.CandidateOf | routes/makeup.js:363-406 | a candidate row exists iff the occurrence passes every rule, and it carries that occurrence. The rules: every join, with module_progress bound to the student (the corrected binding); type dw or pw; same module and promotion; another group; inside the date window; available > 0; no uncompensated cancellation; no busy conflict |
| Makeup.AbsentCompleted | routes/makeup.js:411-433 | NULL iff the absent session's module and type have no titles. Otherwise its completed-title count |
| Makeup.AsWrittenRefusesNineAgainstTen | routes/makeup.js:441-443 | the comparison as written (decimal text) refuses a candidate with 9 completed titles against an absence with 10 |
| Makeup.AsWrittenAdmitsTwelveAgainstThree | routes/makeup.js:441-443 | it admits a candidate with 12 completed titles against an absence with 3 |
| Makeup.AsWrittenAgreesOnOneDigit | routes/makeup.js:441-443 | below ten, the text and numeric comparisons agree |
| Makeup.AsWrittenFindsStudentWithNextDate | routes/makeup.js:336-340 | with a next session date, parameter `$6` of the candidate query is the student |
| Makeup.AsWrittenMissesStudentWithoutNextDate | routes/makeup.js:336-340 | without one, `$6` is the first busy entry's date, or is not bound at all |
| Makeup.ProgressStudentIsStudent | routes/makeup.js:288-289 | the position the route computes for the student (`studentIdIndex`) always holds the student |
| Makeup.CandidateParams | routes/makeup.js:278-297 | the parameter list has length studentIdIndex + 4 × busy entries, with the student at studentIdIndex, the absent date at `$4` and the next date at `$5` when present |
| Makeup.AvailableMakeupSessions | routes/makeup.js:140-218 | 404 iff the absence is not found. `makeup_exists` iff a makeup link exists. `compensation_exists` iff there is no link but a compensation request exists. Otherwise the candidates, kept by the corrected title-progress rule of the first Findings row |
| Makeup.KeptMember | routes/makeup.js:441-443 | a candidate is returned iff some occurrence yields it and the corrected (numeric) title-progress rule allows it |
| Makeup.KeptSorted | routes/makeup.js:406 | the returned candidates are ordered by date then start time |
| Makeup.ListingShape | routes/makeup.js:441-463 | one offer per candidate kept by the corrected title-progress rule, in order, each with `is_allowed` true and `available_slots > 0`. Each comes from an occurrence that passes every rule |
| Makeup.KeptEligible | routes/makeup.js:441-443 | every kept candidate is allowed, has free seats and comes from an eligible occurrence |
| Makeup.LinkCount | routes/makeup.js:516-518 | the number of makeup links of an occurrence. Zero iff it has none |
| Makeup.LinkCountAppend | routes/makeup.js:579-584 | one more makeup link on an occurrence raises its count by exactly one, and a link elsewhere leaves it |
| Makeup.SelectDecision | routes/makeup.js:504-621 | session not found iff no such occurrence joins its session and room. Attendance not found iff it does but the attendance is not the student's absence. Request created iff the session is pw, with no seat or duplicate check. Invalid type iff neither dw nor pw. For dw: no slots iff the makeup links reach the capacity; already enrolled iff a seat is free but the student holds a link; enrolled iff a seat is free and the student holds none |
| Makeup.SelectWrites | routes/makeup.js:579-607 | Enrolled appends exactly one makeup link carrying `att_id`. RequestCreated appends exactly one request `Awaiting response`. Every other outcome writes nothing |
| Makeup.SelectApply | routes/makeup.js:579-607 | select-session changes no table other than the makeup links and the compensation requests |
| Makeup.SelectKeepsCapacity | routes/makeup.js:553-561 | if an occurrence's makeup links are within its room's capacity, they still are after select-session |
| Makeup.SelectKeepsEnrolmentsUnique | routes/makeup.js:564-576 | select-session never makes a student hold two links to one occurrence |
| Makeup.LastSeatGoesOnce | routes/makeup.js:553-561 | with one seat left, the first of two students is enrolled and the second gets no slots |
| Makeup.PwNeverChecksSeats | routes/makeup.js:592-607 | a pw selection creates a request again even right after one was created |
| Makeup.AbsentCount | routes/makeup.js:640-647 | the number of rows with `present = false` among the student's attendance. Zero iff every row is present |
| Makeup.AbsencePercentage | routes/makeup.js:636-658 | the rounded rate of the student's absent rows over all their attendance rows, in hundredths. At most 100.00 percent; zero when there is no absence or no row |
| Makeup.AbsencePercentageRounds | routes/makeup.js:640-656 | the rate is `absent*100/total` rounded to the nearest hundredth, halves up, and 0 without rows |
| Makeup.AbsentFromAll | routes/makeup.js:640-647 | a student absent from every recorded session is at exactly 100.00 percent |
| MakeupLegacy.CreateDateTime | routes/MakeupSession.js:32-40 | throws iff the time (element 0 when it is an array) is not a string |
| MakeupLegacy.CreateDateTimeOfTimeText | routes/MakeupSession.js:32-40 | an `HH:MM:SS` time, bare or as element 0 of an array, reads back as that day plus those seconds |
| MakeupLegacy.CreateDateTimeHoursOnly | routes/MakeupSession.js:36-38 | a time with only an hour field gets 0 minutes and 0 seconds |
| MakeupLegacy.UnreadableTimes | routes/MakeupSession.js:36-38 | an unparseable hour gives an Invalid Date, not a throw |
| MakeupLegacy.UnreadableDay | routes/MakeupSession.js:37-38 | a day text `new Date` cannot read makes every time on it an Invalid Date |
| MakeupLegacy.JoinSplit | routes/MakeupSession.js:36 | `split(':')` loses nothing: joining the parts with ':' gives the string back |
| MakeupLegacy.SomeOverlapFound | routes/MakeupSession.js:71-75 | with readable student times, `some` finds a slot iff one overlaps by `start < studentEnd && end > studentStart` |
| MakeupLegacy.FilterScheduleAsWritten | routes/MakeupSession.js:64-80 | keeps exactly the sessions whose callback returns true as written |
| MakeupLegacy.AsWrittenKeepsUnreadable | routes/MakeupSession.js:66-79 | as written, a session whose times are unreadable is kept beside a busy student slot; the corrected filter drops it |
| MakeupLegacy.FilterSchedule | routes/MakeupSession.js:64-80 | keeps exactly the sessions whose time reads to a real instant and that overlap no student slot |
| MakeupLegacy.AvailableSpec | routes/MakeupSession.js:83-123 | keeps exactly the pw sessions and the sessions whose group + makeup + debt count is strictly below the capacity |
| MakeupLegacy.FilterAvailableSessions | routes/MakeupSession.js:113-123 | the push loop returns exactly that selection |
| MakeupLegacy.PwExempt | routes/MakeupSession.js:117 | a pw session is never dropped for capacity, and any other session without a free seat always is |
| MakeupLegacy.GetAllStudentSessions | routes/MakeupSession.js:42-62 | the concat loop returns the group slots followed by the debt slots |
| MakeupLegacy.PotentialSessions | routes/MakeupSession.js:18-30 | a row is offered iff one session yields it through PotentialOf, at most one row per session |
| MakeupLegacy.PotentialOf | routes/MakeupSession.js:19-27 | a session yields a row iff it has the module and type, is not the absent session, and joins a dateTime slot and a room. The row carries the session's id, type and group, the slot's day and times and the room's capacity |
| MakeupLegacy.SessionOffered | routes/MakeupSession.js:18-30 | every joinable session of the module and type other than the absent one is offered |
| MakeupLegacy.AbsentSessionInfo | routes/MakeupSession.js:7-16 | null iff no attendance row with that id is absent, not made up and joined to its session. Otherwise that row with its session |
| MakeupLegacy.MakeupSessions | routes/MakeupSession.js:126-157 | 404 when the absence is not found. Otherwise the potential sessions filtered by schedule first (the corrected filter of the last Findings row), then by room |
| MakeupLegacy.ListedSessions | routes/MakeupSession.js:135-144 | a session is listed iff it is potential, passes the corrected schedule filter and passes the room filter |
| DebtSessions.SemesterName | routes/debtSessions.js:15-18 | `Fall <year>` for start months 9 to 12, else `Spring <year>` |
| DebtSessions.SemesterNameYear | routes/debtSessions.js:15-18 | the year reads back from the name |
| DebtSessions.SemesterNameInjective | routes/debtSessions.js:15-18 | two names are equal iff both are in the same half of the year and have the same year |
| DebtSessions.DebtCandidateOf | routes/debtSessions.js:64-114 | a candidate exists iff the session has the module and type, has its joins, shares no exact slot with a debt session and does not use a dayTime of the student's group. It carries that slot |
| DebtSessions.DebtCandidates | routes/debtSessions.js:64-119 | exactly those candidates, ordered by day then start time |
| DebtSessions.AvailableDebtSessions | routes/debtSessions.js:44-136 | `hasExistingSession` iff a debt session of that module and type is held. The empty message iff there is none and no candidate. Otherwise the candidate list |
| DebtSessions.DuplicateExclusionIdle | routes/debtSessions.js:96-99 | once the guard has passed, the duplicate NOT EXISTS never excludes anything |
| DebtSessions.ListedSessions | routes/debtSessions.js:94-114 | a session is listed iff it passes every exclusion |
| DebtSessions.Register | routes/debtSessions.js:142-165 | inserts exactly one (student, session) row and changes nothing else |
| DebtSessions.RegisterThenExisting | routes/debtSessions.js:48-61 | after registering, availability for that module and type answers `hasExistingSession` |
| DebtSessions.RegisterTwice | routes/debtSessions.js:150-153 | there is no duplicate check: registering twice adds two rows |
| Schedule.WeekOffset | routes/schedule.js:13-16 | a missing or non-numeric weekOffset is 0; otherwise the parseInt value (hexadecimal after `0x`) |
| Schedule.WeekOffsetOfDecimal | routes/schedule.js:16 | `n` and `-n` written in decimal parse back to n and −n |
| Schedule.WeekOffsetOfWord | routes/schedule.js:16 | a word parses to 0 |
| Schedule.WeekOffsetOfHex | routes/schedule.js:16 | `0x1` is 1 and `-0X1f` is −31; `0x` alone or before a non-hex character is 0 |
| Schedule.WeekStart | routes/schedule.js:19-25 | a Saturday at most six days before the reference day |
| Schedule.WeekEnd | routes/schedule.js:27-28 | the Thursday five days after the week start |
| Schedule.WindowOfItsDays | routes/schedule.js:19-28 | every day of a window has the same window |
| Schedule.NextWeek | routes/schedule.js:20 | offset + 1 moves the window exactly seven days |
| Schedule.PadStart2 | routes/schedule.js:236-237 | at least two digits that read back as the number; exactly two below 100 |
| Schedule.FormatDateFullDate | routes/schedule.js:233-239 | `YYYY-MM-DD`, the full-date form of section 5.6 of RFC 3339, whose fields read back as year, month and day |
| Schedule.LowerInitCap | routes/schedule.js:268 | lower-casing the day that the query has passed through INITCAP (line 63) gives the same name as lower-casing the raw day |
| Schedule.FindStudentInfo | routes/schedule.js:35-51 | found iff the student, their group and their promotion all exist; then the student's group, that group's section and the student's promotion. The 404 otherwise |
| Schedule.ScopeRows | routes/schedule.js:89-118 | a scope gives rows iff the occurrence is in it: group = pw/dw of the student's group; section = other types of the student's section; debt and makeup from the link tables |
| Schedule.ScheduleRowsMember | routes/schedule.js:59-152 | a row is listed iff some occurrence of the week passes the joins and is in that row's scope |
| Schedule.ScheduleRowFlags | routes/schedule.js:146-151 | every row is within the window. `is_debt` iff the student holds a debt link to the session, and `is_makeup` iff they hold a makeup link to the occurrence |
| Schedule.ScheduleRowsSorted | routes/schedule.js:152 | rows are ordered by date then start time |
| Schedule.Colour | routes/schedule.js:213-219 | cancelled > compensation > makeup > debt > plain, each colour exactly in its case |
| Schedule.EntryOf | routes/schedule.js:164-184 | fails iff a time array is empty. Otherwise it carries the id, day and colour, the times as `HH:MM` and the date formatted |
| Schedule.Entries | routes/schedule.js:164-184 | fails iff some row fails. Otherwise it has one entry per row, in order |
| Schedule.StandardizeKept | routes/schedule.js:267-276 | a day is kept iff its lower-case name is in the day map |
| Schedule.DayNamesAccepted | routes/schedule.js:245-258 | every full day name and its three-letter form is accepted |
| Schedule.CaseInsensitive | routes/schedule.js:268-269 | names equal up to case are kept alike and in the same bucket |
| Schedule.FridayDropped | routes/schedule.js:259-276 | Friday, in any case and spelling, is dropped |
| Schedule.Bucket | routes/schedule.js:267-276 | a bucket holds exactly the entries whose normalised day is its key |
| Schedule.BucketsPartition | routes/schedule.js:244-279 | the six buckets and the dropped entries together count every entry exactly once |
| Schedule.GroupByDay | routes/schedule.js:244-279 | the loop returns exactly the six keys Saturday..Thursday, each with its bucket in input order |
| Schedule.WeeklySchedule | routes/schedule.js:10-210 | 404 iff the student is not found. A server error iff some row has an empty time array. Otherwise: the window's start and end, the offset, the row count and the six buckets of the entries |
| Schedule.SemesterAbsenceRate | routes/schedule.js:366-425 | total is the number of the student's attendance rows on occurrences of the semester, absent the number of them with `present = false`. The rate is `ROUND(absent*100/total, 2)` in hundredths, 0 when there is no row, at most 100.00 |
| Schedule.SemesterAttendanceMember | routes/schedule.js:371-392 | counted rows are exactly the student's attendance on occurrences of that semester's modules |
| Titles.Kids | routes/professormodules.js:88-93 | the titles with that parent, by ascending order |
| Titles.Build | routes/professormodules.js:87-101 | each level shows exactly the pool titles whose parent is the level's parent, by ascending order |
| Titles.ChildrenAreTheirRows | routes/professormodules.js:87-101 | each node's children show exactly the titles whose parent is that node |
| Titles.GetModuleTitles | routes/professormodules.js:64-117 | invalid type iff not pw/dw/cours. Otherwise the roots show exactly the null-parent titles of the module and type, by order |
| Titles.BuildAnchored | routes/professormodules.js:87-101 | every node sits under the parent its row names |
| Titles.OrphansDropped | routes/professormodules.js:87-101 | a title whose parent is not in the list appears nowhere in the tree |
| Titles.MaxOrder | routes/professormodules.js:159-165 | MAX(order) of the siblings with the same module, type and parent, or NULL when there are none |
| Titles.NextOrder | routes/professormodules.js:159-165 | above every sibling's order. 0 without siblings, otherwise the largest order + 1 |
| Titles.CreateTitle | routes/professormodules.js:120-196 | missing fields, bad type and module not found each hold exactly in their case. Otherwise the new title has the new id, the given fields, a parent only when one was given, and NextOrder of its level as its order |
| Titles.Applied | routes/professormodules.js:251-268 | COALESCE keeps the old name and type when none is given. The parent and order change only when a placement is given |
| Titles.PlanUpdateAsWritten | routes/professormodules.js:203-249 | as written, an order-only move places the title under NULL |
| Titles.OrderOnlyUpdateDetaches | routes/professormodules.js:216-241 | as written, an order-only update detaches a child title to the root; the corrected plan keeps its parent |
| Titles.PlanUpdate | routes/professormodules.js:199-268 | no fields, not found and bad type each hold exactly in their case. A placement exists iff a parent or an order is given. The parent given, else the current one; the order given, else above every sibling under the new parent |
| Titles.UpdateRows | routes/professormodules.js:251-268 | only the row with that id changes, as the plan says |
| Titles.UpdateKeepsParent | routes/professormodules.js:239-268 | an update without a parent keeps every title's parent |
| Titles.ChildIds | routes/professormodules.js:321-324 | exactly the ids of the children of `x` |
| Titles.BelowTransitive | routes/professormodules.js:320-339 | being below is transitive |
| Titles.LeafRanked | routes/professormodules.js:320-339 | a title with no child can be deleted whatever cycles the parent links have elsewhere |
| Store.Store.SelectSession | routes/makeup.js:504-633 | the select-session decision, with its writes applied to the store |
| Store.Store.RegisterDebtSession | routes/debtSessions.js:142-165 | the store gains exactly the registration row |
| Store.Store.CreateTitle | routes/professormodules.js:120-196 | appends the created title; otherwise nothing changes |
| Store.Store.UpdateTitle | routes/professormodules.js:199-295 | applies the corrected plan (`Titles.PlanUpdate`, which keeps the current parent) to the titles; otherwise nothing changes |
| Store.Store.DeleteSubtree | routes/professormodules.js:320-339 | when the parent links below `x` have no cycle: removes exactly the titles below `x` (itself included) and the progress rows of those titles, and nothing else |
| Store.Store.DeleteTitle | routes/professormodules.js:298-362 | 404 iff the title is missing. Otherwise, when the links below it have no cycle, the subtree and its progress rows are removed and nothing else |
| Store.Store.ProcessStructure | routes/professormodules.js:377-403 | ids are written back into the items: stored ids kept, new items given fresh keys. Only rows whose id the structure names change; rows of other modules or types are untouched; new rows are appended in the module and type |
| Store.Store.ProcessItem | routes/professormodules.js:378-401 | a stored item moves and renames its rows in the module and type to order `index` under `parentId`; a new item appends `(fresh key, module, name, type, parentId, index)`. That row stays as written unless a descendant names it again. Then its children are processed |
| Store.Store.SaveStructure | routes/professormodules.js:365-427 | the whole structure, as ProcessStructure |
| Store.Store.UpsertTitleProgress | routes/professorModuleprogress.js:182-243 | the upsert's outcome and new progress table |
| Store.Store.BulkUpdateProgress | routes/professorModuleprogress.js:249-315 | the bulk replace's outcome and new progress table |
| ProfessorProgress.CompletedTitleIds | routes/professorModuleprogress.js:55-63 | the distinct ids of titles of the module and type that have a completed progress row in the session |
| ProfessorProgress.ListedProgress | routes/professorModuleprogress.js:45-78 | total = titles of the module and type; completed = distinct completed title ids ≤ total; the percentage is 0 without titles, otherwise `round(completed/total*100)`, at most 100 |
| ProfessorProgress.ListedSession | routes/professorModuleprogress.js:19-43 | a session is listed iff it is the professor's and its module, dayTime and promotion join. It carries its progress |
| ProfessorProgress.ProfessorSessions | routes/professorModuleprogress.js:15-85 | exactly the professor's joined sessions, latest start time first |
| ProfessorProgress.ListedAgreesWithJoined | routes/professorModuleprogress.js:48-65 | with unique keys, the two counting methods (COUNT DISTINCT and the LEFT JOIN sums) agree |
| ProfessorProgress.FindSessionHead | routes/professorModuleprogress.js:93-106 | found iff the session, its module and its professor join; the 404 otherwise |
| ProfessorProgress.HierarchyRoots | routes/professorModuleprogress.js:114-117 | level 0 holds exactly the null-parent titles of the module and type |
| ProfessorProgress.HierarchyParent | routes/professorModuleprogress.js:118-121 | a title at level n + 1 has its parent at level n |
| ProfessorProgress.HierarchyClosed | routes/professorModuleprogress.js:118-121 | every child of a listed title is listed |
| ProfessorProgress.TitleRows | routes/professorModuleprogress.js:123-131 | the hierarchy LEFT JOIN the session's progress, ordered by level then order |
| ProfessorProgress.PageProgress | routes/professorModuleprogress.js:136-165 | total and completed are the LEFT JOIN counts of the module's titles of that type with the session's progress rows; completed ≤ total; 0 without titles, otherwise the rounded percentage, at most 100 |
| ProfessorProgress.PageProgressCounts | routes/professorModuleprogress.js:136-160 | with unique keys, total is the number of titles and completed the number of distinct completed titles |
| ProfessorProgress.Organize | routes/professorModuleprogress.js:320-342 | the two loops compute the title map, the child lists and the roots |
| ProfessorProgress.NodeMapLast | routes/professorModuleprogress.js:324-329 | the map holds every id, with the last row of that id |
| ProfessorProgress.RootIdsMember | routes/professorModuleprogress.js:336-338 | the roots are exactly the rows with a falsy parent |
| ProfessorProgress.ChildrenOfMember | routes/professorModuleprogress.js:332-335 | a row is under `x` iff its parent is `x` |
| ProfessorProgress.OrphanDropped | routes/professorModuleprogress.js:332-335 | a row whose parent is not in the list is neither a root nor anyone's child |
| ProfessorProgress.PageRowsPlaced | routes/professorModuleprogress.js:320-342 | every row of the hierarchy query is a root or a child of its parent |
| ProfessorProgress.SessionTitles | routes/professorModuleprogress.js:88-176 | 404 iff the session is not found. Otherwise the session head, the organised titles and the page progress |
| ProfessorProgress.UpsertProgress | routes/professorModuleprogress.js:182-243 | 403 iff no session with that id is the professor's in the module of a title with that id. Otherwise it updates the existing (session, title) row, or else appends a new one; other rows are kept |
| ProfessorProgress.UpsertMarksPair | routes/professorModuleprogress.js:203-229 | with unique (session, title) rows, the upsert keeps them unique and the pair ends marked as asked |
| ProfessorProgress.Inserted | routes/professorModuleprogress.js:288-293 | one completed row per listed title, in order, with fresh keys |
| ProfessorProgress.BulkProgress | routes/professorModuleprogress.js:249-315 | 400 iff titleIds or a truthy sessionId is missing. 403 iff the session is not the professor's. Otherwise the count is the number of listed ids |
| ProfessorProgress.BulkListedCount | routes/professorModuleprogress.js:280-294 | after a bulk update a listed title has one completed row per listing when isCompleted, and none otherwise |
| ProfessorProgress.BulkKeepsOthers | routes/professorModuleprogress.js:280-294 | rows of other sessions or unlisted titles are kept, and the only new rows are completed listed ones |
| SessionProgress.NormalModules | routes/session_progress.js:22-32 | exactly the modules of the promotion, by name |
| SessionProgress.DebtModules | routes/session_progress.js:34-45 | exactly the joined debt modules of the student, by name |
| SessionProgress.StudentModules | routes/session_progress.js:6-58 | 404 iff the student is missing. Otherwise the normal and debt module lists |
| SessionProgress.StudentSessionRows | routes/session_progress.js:67-97 | the UNION of group rows and section rows of the module, without duplicates |
| SessionProgress.BothWaysTwice | routes/session_progress.js:67-97 | a session reached both ways appears once per way: the rows differ in group and section |
| SessionProgress.ProgressOfSession | routes/session_progress.js:101-131 | NULL iff none of the session's rows has titles. Otherwise total and completed are the sums of the LEFT JOIN counts over the session's rows, completed ≤ total, and the rounded percentage, at most 100 |
| SessionProgress.StudentSessions | routes/session_progress.js:60-157 | 404 iff no row joins. Otherwise exactly the joined rows, ordered by type then session id |
| SessionProgress.ListedRowIsReached | routes/session_progress.js:120-132 | every listed session is reached through the group or the section and joins its module and professor |
| SessionProgress.ReachedSessionIsListed | routes/session_progress.js:120-132 | every such session is listed |
| SessionProgress.DebtPart | routes/session_progress.js:168-183 | a debt row needs the debt-session link and a debt-module row for the same student and module; and every debt session of the student in the module, with a debt-module row, is listed |
| SessionProgress.DebtSessionListed | routes/session_progress.js:168-183 | with unique session ids, each such debt session is listed with its own type and professor |
| SessionProgress.CoursPart | routes/session_progress.js:186-198 | exactly the lectures of the module |
| SessionProgress.CombinedSessions | routes/session_progress.js:200-217 | the debt rows are exactly the debt part. The non-debt rows are the module's lectures, present exactly when no debt row is a lecture |
| SessionProgress.OneGroupPerSession | routes/session_progress.js:220-236 | with unique session ids, a session gets at most one progress group |
| SessionProgress.StudentDebtSessions | routes/session_progress.js:160-280 | 404 iff nothing joins. Otherwise exactly the joined combined rows, debt first, then by type and session id |
| SessionProgress.DebtRowsFor | routes/session_progress.js:238-252 | one row per joined progress group, or one row with NULL progress and NULL `is_debt_session` when none (so the row count is the group count, or 1). A row's progress is its group's counts and rounded percentage. The output flag is the group's; the order key is the combined row's flag |
| SessionProgress.ProgressOfGroup | routes/session_progress.js:225-231 | keeps the group's total and completed counts; the percentage is the rounded `completed * 100 / total`, at most 100, and 0 when there are no titles |
| SessionProgress.DebtFlagFromGroup | routes/session_progress.js:220-252 | the output `is_debt_session` is NULL iff no combined row of the session has titles; otherwise the flag of a combined row of the session that has titles |
| SessionProgress.DebtRowsNeedDebtModule | routes/session_progress.js:177-182 | a listed row ordered as debt has its debt-session link and its debt-module row |
| SessionProgress.FallbackIff | routes/session_progress.js:200-217 | a lecture is listed as a non-debt row iff the fallback applies |
| Rollup.JoinCounts | routes/makeup.js:48-63 | the LEFT JOIN counts: total ≥ the number of titles, completed ≤ total |
| Rollup.JoinCountsUnique | routes/makeup.js:48-63 | with unique keys, total is the number of titles and completed is the number of distinct completed titles |
| Rollup.Percent | routes/session_progress.js:227-231 | `round(completed*100/total)` with halves up, and 0 when total is 0 |
| Rollup.PercentAtMost100 | routes/session_progress.js:227-231 | never above 100, and exactly 100 when every title is completed |
| Rollup.PercentMonotone | routes/session_progress.js:227-231 | more completed titles never lower the percentage |
| Rollup.AbsenceHundredths | routes/schedule.js:396-399 | `ROUND(absent*100/total, 2)` in hundredths, 0 when total is 0 |

## Findings

| source | as written | input that shows it | evidently intended | confidence | as-written member | corrected member |
|---|---|---|---|---|---|---|
| routes/makeup.js:441-462 | `completed_titles` values (node-pg returns bigint sums as text) are compared with `>=`, i.e. as strings | absence with 10 completed titles, candidate with 9: "10" >= "9" is false; absence 3, candidate 12: "3" >= "12" is true | numeric comparison of the two counts | not executed | Makeup.AllowedAsWritten (Makeup.AsWrittenRefusesNineAgainstTen, Makeup.AsWrittenAdmitsTwelveAgainstThree) | Makeup.Allowed (Makeup.KeptMember, Makeup.ListingShape) |
| routes/makeup.js:284-340 | module_progress filters `a.student_id = $6`, but the student is pushed at `$5` when there is no next session date | an absence with no later occurrence of its module: `$6` is the first busy date, or unbound | `a.student_id = $${studentIdIndex}` | not executed | Makeup.ProgressStudentAsWritten (Makeup.AsWrittenMissesStudentWithoutNextDate) | Makeup.ProgressStudent (Makeup.ProgressStudentIsStudent, Makeup.ModuleProgressOfAbsence) |
| routes/professormodules.js:216-241 | the current title's `parent_id` is never selected, so an order-only update takes `undefined` as the parent and writes NULL | a child title updated with only `order` | keep the current parent | not executed | Titles.PlanUpdateAsWritten (Titles.OrderOnlyUpdateDetaches) | Titles.PlanUpdate (Titles.UpdateKeepsParent) |
| routes/MakeupSession.js:32-79 | an unparseable time gives an Invalid Date without throwing; NaN comparisons are false, so the session is kept | a potential session whose day is a weekday name such as `Monday`, which `new Date` cannot read, beside a busy student slot | drop sessions whose time cannot be read, as the catch does for thrown errors | not executed | MakeupLegacy.FilterScheduleAsWritten (MakeupLegacy.AsWrittenKeepsUnreadable, MakeupLegacy.UnreadableDay) | MakeupLegacy.FilterSchedule (MakeupLegacy.ListedSessions) |

## Left out

- Authentication, the Express server wiring and the connection pool are not part of this model. HTTP status codes and JSON shaping are kept only as outcome constructors.
- Transactions and concurrency: each route is one atomic step on the tables. The race between listing seats and booking one is not modelled, and neither is `Promise.all` in the professor's session list.
- Generated keys (`uuidv4`, `gen_random_uuid`) come from a counter (`MintedId`), distinct by construction.
- Clock and time zone: "today" is a parameter of `Schedule.WeeklySchedule`. Dates are day numbers and times are seconds since midnight. The makeup routes' `toLocaleDateString` and `DD/MM/YYYY` date text are not modelled; dates stay day numbers there.
- Floating point: every percentage is exact integer arithmetic with halves rounded up. SQL `ROUND` on numeric values does exactly this.
- ProfessorProgress.ListedProgress: `Math.round((c / t) * 100)` (routes/professorModuleprogress.js:73) rounds a double product, which can fall just below a half. For c = 23 and t = 40 the product is 57.49999999999999, so the source gives 57 and the model 58.
- ProfessorProgress.PageProgress: the same double rounding (routes/professorModuleprogress.js:163) is modelled as exact rounding.
- Schedule.WeekOffset: offsets are unbounded integers. In JavaScript a |weekOffset| above about 14.27 million weeks leaves the Date range: the dates format as `NaN-NaN-NaN` and the query fails. A digit string too long for a double also loses precision in `parseInt`. Neither is modelled.
- Makeup.AvailableMakeupSessions: uses the corrected numeric title-progress rule (`Makeup.Allowed`), not the text comparison as written (first Findings row). It also binds module_progress to the student (`Makeup.ProgressStudent`), also when the absence has no next session date, where the source binds `$6` to something else (second Findings row).
- Makeup.KeptMember: the same corrected rule and the same corrected module_progress binding.
- Makeup.ListingShape: the same corrected rule and the same corrected module_progress binding.
- Makeup.CandidateOf: eligibility (`Makeup.Eligible`) requires a module_progress row of the student, also when the absence has no next session date; as written the source filters on `$6`, which is then not the student (second Findings row).
- Makeup.KeptEligible: the same corrected module_progress binding, and the corrected numeric rule of the first Findings row.
- MakeupLegacy.MakeupSessions: uses the corrected `FilterSchedule`, which drops sessions whose times cannot be read; as written the route keeps them (last Findings row).
- MakeupLegacy.ListedSessions: the same corrected filter.
- The absences route's `time` text (routes/makeup.js:88) joins the two `FormatPgArrayTime` results with ` - `; that concatenation is not modelled separately.
- The SQL placeholder text for the busy tuples (routes/makeup.js:298-301) is not modelled. Only the busy entries it encodes and the parameter positions are.
- Busy entries are compared on element 0 of the start and end arrays; duplicates that UNION ALL keeps do not change any conflict, so busy multiplicity is not modelled.
- Makeup.ModuleProgressOfAbsence: the model binds module_progress to the student (the corrected binding); the as-written binding is shown only by the Findings members.
- Makeup.AbsencePercentage: `parseFloat` of the rounded text is modelled as the exact hundredths; a student with no rows gets 0.
- Makeup.SelectDecision: `current_attendees` counts makeup links only, as written; the listing's other capacity rule is the separate `SessionCapacity`.
- The busy-set duplicates and the UPDATE that matches no row (an unknown id in a saved structure) write nothing; this is what the model does and no separate lemma states it.
- Primary keys are assumed unique where a lemma needs it (`TitleIdsUnique`, `ProgressUnique`, `SessionKeys`); lookups take the first matching row.
- ORDER BY ties: SQL leaves their order unspecified; the model keeps table order (a stable sort).
- Collation: text ORDER BY (module names, types, day names) uses code-point order.
- Schedule.CivilFromDays: the civil date of a day number has no general contract, only two checked dates (the epoch and a leap day).
- The debt-sessions route of routes/schedule.js:281-362 and getProfessorModules at routes/professormodules.js:7-61 are not part of this model.
- The debt-modules listing at routes/debtSessions.js:6-41 is modelled only through its semester-name rule; its joins through specialty and level tables are not.
- routes/MakeupSession.js is modelled over its own schema (a `dateTime` table, `Attendance.session_id`, `ismarkup`); its varchar casts are the identity.
- Store.Store.DeleteSubtree: the cascade is stated by membership (which rows remain), not by the order of the DELETE statements. It needs a ghost rank that witnesses that the parent links below `x` have no cycle; cycles elsewhere in the table do not matter. The source recurses forever on a cycle below `x`, so that case is not modelled.
- Store.Store.DeleteTitle: the same condition, below the deleted title.
- Store.Store.ProcessStructure: states the ids written back, the rows appended, the rows left untouched and that only named rows change, but not each row's final order and parent after the renumbering.
- Store.Store.ProcessItem: the row an item writes is stated only when no descendant item names the same title again; a later UPDATE would overwrite it.
- Store.Store.SaveStructure: the same as ProcessStructure.
- Store.Store.UpdateTitle: applies the corrected `Titles.PlanUpdate`, which keeps the current parent; as written an order-only update detaches the title (third Findings row).
- The debt candidates' `room_type` column (routes/debtSessions.js:80) is dropped.
- The professor's name, `CONCAT(firstname, ' ', lastname)` (routes/session_progress.js:123 and 243) and `firstname || ' ' || lastname` (routes/professorModuleprogress.js:96), is modelled by the professor id in `SessionRow`, `DebtRow` and `SessionHead`.
- Titles.Build recurses on the pool without the expanded title; with unique ids and acyclic links this is the same tree as the source's recursion.
- Schedule.WeeklySchedule: the `debug.studentInfo` echo of the response is left out.
