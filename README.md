# 도와줄래? — a verified model of the classroom helper

"도와줄래?" ("Will you help me?") is a classroom web app. Students log in with a four-digit id
(grade, class, two-digit number) and raise a hand for help or offer it. A thanked helper earns a
point, up to 20 a day. Students also write a daily learning record, vote for classmates in three
categories, and use a countdown timer. The teacher manages the roster, points, help settings, role
hand-outs, random-pick categories, votes, learning records and AI-written school-record texts.

This project models the app's rule logic in Dafny and proves what it promises:

- **Validators and formatters.** `Validation`, `Format` and `Time` cover the id and class-text
  checks, id parsing and rendering, link extraction, and the KST day and 40-minute session
  arithmetic, with the clock passed as `now` in milliseconds.
- **Services over the database tables.** Each table is a small class whose `rows` field is keyed
  by what the code relies on: `daily_points` by (student, date), `help_requests` by student,
  `help_settings` by (grade, class), ballots by (session, voter), and so on. Each service is a
  method taking the tables it touches, and every database call's success is an explicit input.
  The modules are `HelpSettings`, `Points`, `Help`, `Auth`, `Students`, `Votes`,
  `LearningRecords`, `Messages` and `HoverMessage`.
- **The serverless proxy.** `GeminiRecord` covers its request checks and response statuses.
- **The spreadsheet rows.** `ExcelExport` covers how the download rows are built.
- **The rule logic inside the React components.** Each component is a class whose fields are its
  state:
  - the admin tabs: `AdminClass`, `AdminLearningGuide`, `AdminHelpRecords`, `AdminHelp`,
    `AdminPoints`, `AdminRole`, `AdminRandomPick`, `LearningRecordAdmin` and
    `FriendVoteManagement`;
  - the student panels: `LearningRecordPanel`, `FriendVoteModal`, `HelpButtons` and `Timer`.

Shared modules:

- `Wrappers` holds `Option` and `Result`.
- `Text` holds JavaScript's string behaviour as the app uses it: `trim`, `split`, `parseInt` and
  `Number` on digit strings, and decimal rendering.
- `Sorting` holds a stable insertion sort, filtering and de-duplication.
- `ItemList` holds the list-of-entries form shared by the role and random-pick tabs.
- `Database` holds the shared tables.

## Model

| member | source | states |
|---|---|---|
| Validation.ValidateStudentIdIff | src/utils/validationUtils.js:16-35 | a student id is accepted exactly when it is four digits, the grade digit is 3, 4 or 6, the class digit is 1-3 (grades 3 and 4) or 1-7 (grade 6) and the number 01-99 |
| Validation.ValidateNameIff | src/utils/validationUtils.js:51-61 | a name is accepted exactly when its trimmed text is non-empty and at most 10 characters long |
| Validation.ValidateClassTextIff | src/utils/validationUtils.js:72-91 | a class text is accepted exactly when it is one digit, '-', one digit, with the same grade and class ranges as a student id |
| Validation.ValidIdGivesValidClassText | src/utils/validationUtils.js:16-91 | the "G-C" text built from an accepted student id is itself an accepted class text |
| Format.ParseStudentId | src/utils/formatUtils.js:13-23 | parsing succeeds exactly when the id is present and four characters long; otherwise it is the thrown error |
| Format.ParseStudentIdDigits | src/utils/formatUtils.js:13-23 | for a four-digit id the grade is the first digit, the class the second and the number the value of the last two |
| Format.ParseClassText | src/utils/formatUtils.js:32-43 | a class text parses exactly when it is digit, '-', digit, and then both parts are single-digit values |
| Format.ClassTextAgreesWithStudentId | src/utils/formatUtils.js:13-43 | for every id that validateStudentId accepts, parseClassText of its "G-C" text gives the same grade and class as parseStudentId |
| Format.ClassOfStudentId | src/modules/student/FriendVoteModal.jsx:29-30 | the `${grade}-${classNumber}` text built from a parsed id exists exactly when the id parses (present, four characters) |
| Format.ClassOfDigitId | src/modules/student/FriendVoteModal.jsx:29-30 | for a four-digit id that class text is the first digit, '-', the second digit |
| Format.NumberText | src/utils/formatUtils.js:59-62 | the student number of a two-digit suffix is shown without a leading zero |
| Format.StudentIdTextIsClassInfo | src/utils/formatUtils.js:50-62 | formatStudentId is formatClassInfo of grade and class followed by " N번" |
| Format.FormatStudentIdDigits | src/utils/formatUtils.js:50-62 | for a four-digit id the display text is "G학년 C반 N번" with the number's leading zero dropped (so "3101" gives "3학년 1반 1번") |
| Format.FormatPointsRoundTrip | src/utils/formatUtils.js:94-96 | the points text splits on '/' back into the current value and the maximum, which defaults to 20 |
| Format.FormatPointsInjective | src/utils/formatUtils.js:94-96 | two point texts are equal only when current value and maximum (after the default) are equal |
| Format.RoundDiv | src/utils/formatUtils.js:104-107 | the exact-rational stand-in for Math.round of a quotient is the nearest integer, halves rounded up |
| Format.CalculatePointsPercent | src/utils/formatUtils.js:104-107 | the percentage is 0 when the maximum is 0, never above 100, and not negative for non-negative points and a positive maximum |
| Format.MatchIsLink | src/utils/formatUtils.js:69-74 | a match of the link pattern at the front of the text is a link: "http://" or "https://" followed by non-space characters |
| Format.LinksAreLinks | src/utils/formatUtils.js:69-74 | every match collected from the text is a link |
| Format.ExtractLinksSpec | src/utils/formatUtils.js:69-74 | missing or empty text yields no links, and every extracted link starts with "http://" or "https://" and has no white space |
| Time.CivilFromDays | src/utils/timeUtils.js:23-29 | the UTC calendar date read by getUTCFullYear/getUTCMonth/getUTCDate is a valid date |
| Time.CivilRoundTrip | src/utils/timeUtils.js:23-29 | converting a day number to its calendar date and back gives the same day number |
| Time.CivilFromDaysInjective | src/utils/timeUtils.js:23-29 | different days have different calendar dates |
| Time.DateStringParts | src/utils/timeUtils.js:23-29 | the date text is the year, '-', the two-digit month, '-', the two-digit day |
| Time.DateStringInjective | src/utils/timeUtils.js:23-29 | different valid dates have different texts |
| Time.UtcDateStringSame | src/utils/timeUtils.js:93-105 | two UTC date texts agree exactly when the two times fall on the same UTC day |
| Time.TodayKstSame | src/utils/timeUtils.js:12-29 | getTodayKST agrees at two times exactly when the times shifted by nine hours fall on the same UTC day |
| Time.TodayKstChangesAt1500Utc | src/utils/timeUtils.js:12-29 | the KST date changes at 15:00 UTC and stays the same for the following 24 hours |
| Time.TodayKstShape | src/utils/timeUtils.js:23-29 | getTodayKST is the valid shifted UTC date written "YYYY-MM-DD" with two-digit month and day |
| Time.GetSessionRemainingMinutes | src/utils/timeUtils.js:59-69 | the minutes left are never negative, positive exactly when the session has not expired, and then the difference rounded up to whole minutes |
| Time.FreshSession | src/utils/timeUtils.js:35-52 | a session expiring 2,400,000 ms from now has 40 minutes left and counts as expired exactly from 40 minutes on, the boundary included |
| Time.GetTimeUntilMidnightKST | src/utils/timeUtils.js:75-86 | the result lies in (0, 86,400,000] and is the distance to the next 15:00 of the shifted clock (as written, 15:00 KST) |
| Time.IsTodayIff | src/utils/timeUtils.js:93-105 | a present date is today exactly when its UTC day is the UTC day of the clock shifted by nine hours |
| HelpSettings.Resolve | src/services/helpSettingsService.js:24-73 | the lookup cascade finds nothing exactly when none of (grade, class), (grade, 0) and (0, 0) has a row, and it finds the class's own ('individual') row exactly when that row exists |
| HelpSettings.GetHelpSettingsResolves | src/services/helpSettingsService.js:24-73 | with the queries succeeding, getHelpSettings gives the limits of the first level that has a row, and {600, 3} when none has |
| HelpSettings.GetHelpSettingsOnErrors | src/services/helpSettingsService.js:11-73 | with every query failing, getHelpSettings gives the defaults {600, 3} |
| HelpSettings.ByStudentIdSpec | src/services/helpSettingsService.js:82-103 | an unknown student gets the defaults; a known student gets getHelpSettings of their grade and class |
| HelpSettings.FindRow | src/services/helpSettingsService.js:272-292 | the `find` on (grade, class_number) finds nothing exactly when no row has that key, and a found row has it |
| HelpSettings.FindRowLists | src/services/helpSettingsService.js:272-292 | on a listing of the keyed table, a row is found exactly when the key is in the table, and it carries that key's limits |
| HelpSettings.FindSettingForClassResolves | src/services/helpSettingsService.js:272-292 | findSettingForClass picks the exact row tagged 'individual', else the (grade, 0) row tagged 'grade', else the (0, 0) row tagged 'global', else null: the same as the lookup cascade |
| HelpSettings.FindSettingForClassFiltered | src/services/helpSettingsService.js:229-265 | the `.or(...)` query filters of the grade and class listings keep every row findSettingForClass can pick, so they do not change what it picks |
| HelpSettings.ParseScopeRoundTrip | src/services/helpSettingsService.js:143-167 | parseScope reads back every scope ("전체", "N학년", "N-M") from its text, surrounding white space ignored |
| HelpSettings.ParseGradeScope | src/services/helpSettingsService.js:143-167 | "N학년" with any surrounding white space parses to grade N |
| HelpSettings.ParseClassScope | src/services/helpSettingsService.js:143-167 | "N-M" with any surrounding white space parses to class (N, M) |
| HelpSettings.ClassTextNotGrade | src/services/helpSettingsService.js:143-167 | a class text is neither "전체" nor of the grade form, so the class branch is the one taken |
| HelpSettings.LineFor | src/services/helpSettingsService.js:194-202 | a class's line has the class's grade and number, the values findSettingForClass picks or the defaults, and the tag 'default' exactly when nothing was found |
| HelpSettings.RosterClassesSpec | src/services/helpSettingsService.js:184-230 | the distinct-class step keeps every student's class once, and nothing else |
| HelpSettings.LinesSpec | src/services/helpSettingsService.js:194-245 | lines built from distinct classes have no duplicate, are sorted, and hold one line per class and nothing else |
| HelpSettings.AllClassesSpec | src/services/helpSettingsService.js:172-207 | the all-classes listing has one line per class with students, no class twice, sorted by grade then class, each line the found setting or the defaults |
| HelpSettings.GradeClassesSpec | src/services/helpSettingsService.js:212-246 | the grade listing has one line per class of that grade, sorted by class, each line what findSettingForClass picks from the whole table |
| HelpSettings.ClassWithSettingsSpec | src/services/helpSettingsService.js:251-267 | the single-class listing is that class's line computed from the whole table |
| HelpSettings.HelpSettingsTable.SaveClassSetting | src/services/helpSettingsService.js:302-331 | on success the (grade, class_number) key now holds the saved limits and nothing else changes; on failure the table is unchanged |
| HelpSettings.HelpSettingsTable.SaveBatchSettings | src/services/helpSettingsService.js:337-365 | on success every listed class holds the saved limits and the count is the number of classes; on failure the table is unchanged |
| HelpSettings.HelpSettingsTable.DeleteClassSetting | src/services/helpSettingsService.js:373-397 | deleting (0, 0) is refused with the table unchanged; otherwise on success exactly that key is removed |
| HelpSettings.Saved | src/services/helpSettingsService.js:337-365 | after the batch upsert every listed class holds the limits and every other key is as before |
| HelpSettings.SaveResolves | src/services/helpSettingsService.js:302-331 | after a save the saved class resolves to its own row with the saved limits, and classes whose cascade does not pass through the saved key resolve as before |
| HelpSettings.BatchSaveResolves | src/services/helpSettingsService.js:337-365 | after a batch save every listed class resolves 'individual' to the saved limits |
| HelpSettings.DeleteFallsThrough | src/services/helpSettingsService.js:373-397 | after deleting a class's own row, the class resolves to the next level as it stood before |
| HelpSettings.DeleteGradeRow | src/services/helpSettingsService.js:373-397 | deleting a grade row sends the grade's classes without their own row to the global row |
| Points.Clamp | src/services/pointService.js:103 | the stored value `Math.max(0, Math.min(20, points))` always lies in [0, 20], equals the points inside that range and is the nearer bound outside it |
| Points.Incremented | src/services/pointService.js:137-142 | the incremented value lies in [0, 20], is current + amount when that fits and 20 when it reaches or passes 20 |
| Points.IncrementCaps | src/services/pointService.js:137-142 | from any count in [0, 20], n one-point increments give min(count + n, 20): each adds one until 20 is reached, so 19 + 1 gives 20 and 20 + 1 stays 20 |
| Points.CreateDailyPoints | src/services/pointService.js:51-90 | a missing (student, today) row is created as {0, 20} and returned; an existing row is fetched and returned unchanged; the table keeps every value in [0, 20] |
| Points.GetDailyPoints | src/services/pointService.js:20-44 | an existing row is returned unchanged; the first read of the day creates and returns {0, 20}; a failure changes nothing |
| Points.UpdateDailyPoints | src/services/pointService.js:98-129 | on success today's row holds the clamped value and no other row changes; a missing row is created first and the update retried once; a failure leaves at most the fresh row behind |
| Points.IncrementPoints | src/services/pointService.js:137-147 | on success today's row holds min(current + amount, 20) clamped, with a missing row read as 0; a failed read stores nothing; only the (student, today) row changes |
| Points.OrDefault | src/services/pointService.js:178-182 | a field read with a fallback is the value when it is present and non-zero, and the fallback for null or 0 |
| Points.GetTodaysClassPoints | src/services/pointService.js:159-186 | an error or an empty answer gives {0, 100}; otherwise the first row's fields with 0 and 100 standing in for missing ones, so the goal is never 0 |
| Help.Deactivate | src/services/helpService.js:104-107 | the update touches only that student's row: it becomes inactive with its status and start time kept, and every other row is unchanged |
| Help.DeactivateAll | src/services/helpService.js:232-235 | the batch update makes exactly the listed students' rows inactive and leaves every other row unchanged |
| Help.GetMyActiveRequest | src/services/helpService.js:17-53 | on a successful read the request is reported exactly when it is active and at most 2,400,000 ms old; an older active request is reported as none and, when that update succeeds, deactivated (the table becomes ExpireOnRead of the old one) |
| Help.ExpireOnRead | src/services/helpService.js:31-45 | the read's lazy expiry deactivates only that student's request, changes no student's live status and leaves no expired active request for the student |
| Help.CreateHelpRequest | src/services/helpService.js:61-94 | on success the student has one request: active, with the given status, started now; the earlier request is deactivated first |
| Help.CreatedIsLive | src/services/helpService.js:17-94 | a request created at time c is reported by getMyActiveRequest exactly while at most 40 minutes have passed, the 40-minute boundary included |
| Help.CancelHelpRequest | src/services/helpService.js:101-118 | cancelling deactivates only that student's active request and succeeds exactly when there was one and the update went through |
| Help.CompleteHelp | src/services/helpService.js:126-159 | the steps are: append one transaction {helper, helped, 1}, raise the helper's daily points by one capped at 20, deactivate the helped student's request; a failed transaction insert changes nothing, and a later failure undoes nothing |
| Help.CompleteHelpKeepsHelper | src/services/helpService.js:126-159 | the helper's own request is left as it was |
| Help.BoardEntryFor | src/services/helpService.js:198-227 | a student's board entry shows the request status exactly when the request is active and not expired |
| Help.ExpiredIds | src/services/helpService.js:193-217 | the collected ids are exactly the class's students whose active request has expired |
| Help.Board | src/services/helpService.js:198-227 | the board has one entry per student of the roster, in roster order |
| Help.CollectBoard | src/services/helpService.js:193-229 | the loop produces the board of the roster and the ids of the expired requests |
| Help.GetActiveHelpRequests | src/services/helpService.js:168-248 | one entry per student of the class in student-number order, then the expired requests found on the way deactivated in one update; a failed roster query changes nothing |
| Help.BoardClearsExpired | src/services/helpService.js:231-241 | after the batch update no student of the class keeps an expired active request, and students outside the class are untouched |
| Help.HelpingEntries | src/services/helpService.js:267-280 | the helper list holds exactly the roster's students whose request is active with status 'helping' |
| Help.HelpingStudentsSpec | src/services/helpService.js:255-285 | for a digit class "G-C", getHelpingStudents lists exactly that class's helping students |
| Auth.Matching | src/services/authService.js:40-45 | the login query selects exactly the students with that id and the trimmed name |
| Auth.MatchingAtMostOne | src/services/authService.js:40-50 | with one row per id, at most one student matches |
| Auth.WithoutStudent | src/services/authService.js:76-79 | the delete removes exactly the student's sessions and keeps every other session |
| Auth.LoginStudent | src/services/authService.js:24-108 | the id is checked first and then the name, each failure returning its error with no table touched; success needs a student matching id and trimmed name, and the student's sessions are replaced by one session expiring 40 minutes after now |
| Auth.LoginLeavesOneSession | src/services/authService.js:76-91 | after a login whose delete went through, the student has exactly the new session, and it expires 40 minutes after the login |
| Auth.ValidateSession | src/services/authService.js:117-145 | the session is valid exactly when the student has exactly one session and it has not expired; an expired session is deleted |
| Auth.FreshSessionValid | src/services/authService.js:117-145 | a session just created by login stays valid for 40 minutes, its last instant excluded |
| Auth.LogoutStudent | src/services/authService.js:152-171 | logout always succeeds; it deletes the student's sessions and deactivates the student's help request when those calls go through |
| Auth.LogoutClears | src/services/authService.js:152-171 | after a logout whose calls went through, the student has no session and no active help request, and nobody else's sessions changed |
| Auth.LoginAdmin | src/services/authService.js:178-189 | admin login succeeds exactly for the password "teacher123" |
| Students.ParseClassInfoDigits | src/services/studentService.js:101 | "G-C" with digit runs G and C is read as grade G and class C by `split('-').map(Number)`, an empty run giving 0 |
| Students.ParseClassInfoNoDash | src/services/studentService.js:101 | a text without '-' gives an undefined class part, so no class is selected |
| Students.StudentsByClassSpec | src/services/studentService.js:9-23 | the class query returns exactly the rows of that grade and class, each as often as in the table, ordered by student number |
| Students.GetStudentsByClass | src/services/studentService.js:9-23 | the result is the class query exactly when the query succeeds, and an error otherwise |
| Students.GetClassStudentsAgrees | src/services/studentService.js:100-116 | for a "G-C" text of digits, getClassStudents selects what getStudentsByClass(G, C) selects |
| Students.UpsertMembers | src/services/studentService.js:35-56 | after the upsert the new row is present and the rows of every other id are kept |
| Students.UpsertUnique | src/services/studentService.js:35-56 | on a table with one row per id the upsert keeps one row per id, and the row for the new id is the new row |
| Students.UpsertTwice | src/services/studentService.js:35-56 | a second upsert with the same id replaces the first call's fields |
| Students.CreateOrUpdateStudent | src/services/studentService.js:35-56 | on success the table is the upsert of the student by student_id and stays one row per id; on failure it is unchanged |
| Students.FirstSessionSpec | src/services/studentService.js:82 | `login_sessions?.[0]` exists exactly when the student has a session, and it is that student's first session row |
| Students.LoginStatusSpec | src/services/studentService.js:81-89 | is_logged_in holds exactly when the first session exists and expires strictly after now; login_time is null exactly when there is no session |
| Students.AllStudentsSpec | src/services/studentService.js:62-93 | the listing keeps every student row, in student_id order, each with its own login status |
| Database.FindStudent | src/services/helpSettingsService.js:85-89 | the `.single()` lookup by student_id finds nothing exactly when no roster row has the id, and a found row has that id |
| Database.TransactionsTable.Insert | src/services/helpService.js:129-138 | the insert appends exactly one unapproved transaction of the given points from the helper to the helped student, under the next id |
| Votes.CompleteActive | src/services/voteService.js:15-28 | the update completes every active session (ended now) and leaves every other session unchanged, so none stays active |
| Votes.StartVoteSession | src/services/voteService.js:12-47 | the earlier active sessions are completed, then a new active session with the three questions started now is inserted under a fresh id; a failed insert adds no session |
| Votes.StartLeavesOneActive | src/services/voteService.js:12-47 | once the earlier sessions are completed, the new session is the only active one |
| Votes.EndVoteSession | src/services/voteService.js:52-70 | only the given session is completed, with its end time now; a missing session or a failed update changes nothing |
| Votes.BallotsWithout | src/services/voteService.js:111-125 | the ballots that survive deleting a session are exactly those of other sessions |
| Votes.ResetVote | src/services/voteService.js:111-125 | on success the session is removed and, by the cascade, its ballots with it; on failure nothing changes |
| Votes.FindBallot | src/services/voteService.js:153-159 | the lookup finds a ballot of that (session, voter) exactly when one exists |
| Votes.OneBallotEachMatchesOnce | src/services/voteService.js:153-159 | with one ballot per (session, voter) no pair matches more than one ballot |
| Votes.SingleBallot | src/services/voteService.js:153-159 | the `.single()` lookup finds the voter's ballot exactly when the query answers and exactly one ballot matches; with one ballot per (session, voter) it is the plain lookup |
| Votes.Submitted | src/services/voteService.js:161-187 | the found ballot alone is replaced by the new one, otherwise the new ballot is appended after the old ones |
| Votes.SubmitVote | src/services/voteService.js:150-196 | on success the ballots are Submitted of the old ones: the single ballot of the voter in the session gets the new choices, otherwise a ballot is appended; on failure the ballots are unchanged |
| Votes.SubmitKeepsOneBallot | src/services/voteService.js:150-196 | a submission whose lookup answered keeps one ballot per (session, voter), and a repeat submission overwrites the three choices |
| Votes.FailedLookupDuplicates | src/services/voteService.js:153-187 | a lookup that fails while the voter already has a ballot makes the insert run, which leaves two ballots for that voter |
| Votes.TwoBallotsGetAThird | src/services/voteService.js:153-187 | a voter who already has two ballots in the session gets a third, since `.single()` fails on two matches and the insert runs |
| Votes.ItemsOfAppend | src/services/voteService.js:83-99 | grouping a concatenation groups each part and keeps their order |
| Votes.ItemsOfMembers | src/services/voteService.js:83-99 | a result item is listed under a category exactly when a row of that category carries it |
| Votes.ItemsOfCount | src/services/voteService.js:83-99 | the three groups together hold one item per row of categories 1 to 3, and rows of other categories are dropped |
| Votes.GetVoteResults | src/services/voteService.js:75-106 | a failed procedure call is an error; otherwise the rows are split into category1, category2 and category3 by their category field, each in row order |
| Votes.GetActiveVoteSession | src/services/voteService.js:132-145 | the active session exists exactly when the procedure answered with at least one row, and it is the first row |
| Votes.HasStudentVoted | src/services/voteService.js:201-215 | the answer is true exactly when the procedure answered true; an error gives false |
| LearningRecords.RosterName | src/services/learningRecordService.js:49-52 | the name given to a kept record is never empty: the unknown name when no roster row has the id, otherwise a roster name of that id |
| LearningRecords.RosterNameOf | src/services/learningRecordService.js:49-52 | with one roster row per id, the name is that row's name, or '알 수 없음' when it is empty |
| LearningRecords.FirstPerStudent | src/services/learningRecordService.js:44-56 | the seen-set filter keeps records of the input only, at most one per student, and one for every student that has a record |
| LearningRecords.FirstPerStudentSnoc | src/services/learningRecordService.js:47-55 | one step of the loop keeps the next record exactly when its student has not been seen |
| LearningRecords.FirstIsNewest | src/services/learningRecordService.js:34-56 | in records ordered by student and then date descending, the record kept for a student has the latest date of that student's records |
| LearningRecords.Named | src/services/learningRecordService.js:50-53 | each kept record carries the roster name of its student, one output per kept record, in order |
| LearningRecords.KeepFirst | src/services/learningRecordService.js:44-56 | the loop's output is the first record of each student, named from the roster |
| LearningRecords.GetLatestRecords | src/services/learningRecordService.js:12-64 | an unparsable class or a failed query fails; an empty class gives [] without the records query; otherwise the first record per student of the ordered query, named |
| LearningRecords.LatestSpec | src/services/learningRecordService.js:12-64 | the latest records hold one entry per student of the roster who has a record and none for anyone else; each is that student's record with the latest date, carrying the roster name |
| LearningRecords.ClassRecordsSpec | src/services/learningRecordService.js:34-40 | the records query holds exactly the roster's records, ordered by student and then by date descending |
| LearningRecords.Update | src/services/learningRecordService.js:97-127 | the update by record_id changes exactly the records of that id, in place, and no other |
| LearningRecords.Find | src/services/learningRecordService.js:101-127 | the `.single()` row of that id exists exactly when a record has that id, and a found row has it |
| LearningRecords.UpdateKeepsIds | src/services/learningRecordService.js:97-127 | an update keeps every record id, so the table stays keyed by record_id |
| LearningRecords.SaveAIConversion | src/services/learningRecordService.js:94-110 | the update succeeds exactly when it went through and the record exists; then only that record's AI text changes, to the given text |
| LearningRecords.ApproveRecord | src/services/learningRecordService.js:117-136 | the update succeeds exactly when it went through and the record exists; then only that record becomes approved, with approval time now |
| LearningRecords.DeleteRecord | src/services/learningRecordService.js:143-156 | on success exactly the records with that id are removed and the others keep their order; on failure nothing changes |
| LearningRecords.Without | src/services/learningRecordService.js:146-149 | the delete keeps exactly the records of other ids, and a keyed table stays keyed |
| LearningRecords.NumberFrom | src/services/learningRecordService.js:194-201 | numbering gives one export row per record, with consecutive numbers |
| LearningRecords.ExportRecords | src/services/learningRecordService.js:184-189 | the export query selects exactly the roster's records with a non-null AI text |
| LearningRecords.GetExportData | src/services/learningRecordService.js:163-207 | an unparsable class or a failed query fails; an empty class gives []; otherwise the class's records with AI text, numbered from 1 |
| LearningRecords.ExportDataSpec | src/services/learningRecordService.js:163-207 | the export rows are numbered 1..n with nothing skipped, one per record of the class with AI text, each with that record's text and the roster name |
| LearningRecords.GetStudentRecords | src/services/learningRecordService.js:71-86 | on success the list holds exactly the student's records; a failed query is an error |
| Messages.MessagesTable.Insert | src/services/messageService.js:11-45 | the insert appends exactly one unread message under the next id and changes nothing else |
| Messages.SendMessageToStudent | src/services/messageService.js:9-25 | on success one unread message holding the trimmed content, from the teacher to the student, is appended; on failure nothing changes |
| Messages.SendReplyToTeacher | src/services/messageService.js:33-51 | on success one unread message holding the trimmed content cut to its first 100 characters, from the student to 'admin', is appended; on failure nothing changes |
| Messages.UnreadNewestFirst | src/services/messageService.js:60-66 | the query holds exactly the unread messages addressed to the student, newest first |
| Messages.GetLatestUnreadMessage | src/services/messageService.js:58-71 | the answer is null exactly when the student has no unread message; otherwise it is an unread message of the student and none is newer |
| Messages.MarkRead | src/services/messageService.js:80-83 | the update sets is_read on the messages with that id and changes nothing else |
| Messages.MarkReadIdempotent | src/services/messageService.js:78-85 | marking twice is marking once, and the marked message is read afterwards |
| Messages.MarkAsRead | src/services/messageService.js:78-85 | on success only that message becomes read; on failure nothing changes |
| Messages.WithoutMessage | src/services/messageService.js:94-97 | the delete keeps exactly the messages of other ids, in order |
| Messages.DeleteMessage | src/services/messageService.js:92-99 | on success exactly the message with that id is gone; on failure nothing changes |
| Messages.LatestReplies | src/services/messageService.js:108-113 | the replies query holds exactly min(20, number of replies) messages to the administrator, drawn from the table (as a sub-multiset), newest first, and every reply it leaves out is no newer than any it holds |
| Messages.NewestRepliesKept | src/services/messageService.js:108-113 | the first n of the replies sorted newest first are drawn from the table, and no reply left out is newer than one kept |
| Messages.StudentMap | src/services/messageService.js:128-131 | the map has exactly the ids of the fetched students, each mapped to a fetched row of that id |
| Messages.BuildStudentMap | src/services/messageService.js:128-131 | the forEach builds the map where a later row of the same id wins |
| Messages.StudentMapOfUnique | src/services/messageService.js:128-131 | with one row per id the map gives each student's own row |
| Messages.Senders | src/services/messageService.js:120-124 | the senders query returns exactly the student rows with one of the replies' ids, one per id when the table has one row per id |
| Messages.GetTeacherReplies | src/services/messageService.js:105-137 | the list is the 20 newest replies, each paired with its sender's row or null; it succeeds exactly when the queries it needs succeed, and no reply needs no student query |
| Messages.TeacherRepliesSpec | src/services/messageService.js:105-137 | the listed replies are the newest replies to the administrator: at most 20, drawn from the table, newest first, none left out newer than one listed; a reply of a student in the table carries that student's row while any other carries null |
| Messages.SendersOfReplies | src/services/messageService.js:118-136 | with one row per student id, a reply of a student in the table is paired with that student's row, and any other reply with null |
| Messages.RoutingSpec | src/services/messageService.js:9-51 | a note the teacher sends reaches the subscription of its addressee and no other, and a reply to the teacher reaches no student's subscription |
| HoverMessage.ParseString | src/services/hoverMessageService.js:12-17 | a string with non-blank content is returned unchanged and anything else gives the fallback, so a fallback with content gives a result with content |
| HoverMessage.GetHoverMessage | src/services/hoverMessageService.js:12-36 | a failed query is an error; a missing row gives the defaults exactly when the client's error text contains 'Row not found' and is an error otherwise; of a present row, a field with content is read as itself and a null or blank field as its default; message and image URL are never blank |
| HoverMessage.StoredMessage | src/services/hoverMessageService.js:42 | the stored message is the trimmed message when it has content, and the default message otherwise |
| HoverMessage.StoredImageUrlAsWritten | src/services/hoverMessageService.js:43 | as written, only a missing or empty URL is replaced by the default, so a URL of spaces is stored as it is |
| HoverMessage.UpdatedAsWritten | src/services/hoverMessageService.js:39-58 | as written, the update leaves row 1 holding exactly the returned content and no other row changed, with a non-empty URL kept even when it is only white space |
| HoverMessage.AsWrittenRoundTripFails | src/services/hoverMessageService.js:19-58 | as written, an update with the URL " " returns " " but the next read gives the default URL, so the read does not give back what the update returned |
| HoverMessage.StoredImageUrl | src/services/hoverMessageService.js:43 | the corrected stored URL is the URL when it has content, and the default URL for a missing or blank one |
| HoverMessage.UpdateHoverMessage | src/services/hoverMessageService.js:39-58 | corrected (see ## Findings): on success row 1 holds the stored message and the URL with a blank URL replaced by the default, and they are returned; a failed upsert changes nothing |
| HoverMessage.StoredHasContent | src/services/hoverMessageService.js:39-58 | what an update stores always has content |
| HoverMessage.UpdateThenGet | src/services/hoverMessageService.js:19-58 | a read after an update gives back exactly what the update returned, whatever the table held before |
| ExcelExport.RemoveDashes | src/utils/excelExport.js:23 | `.replace(/-/g, '')` leaves no dash and keeps dash-free text unchanged |
| ExcelExport.RemoveDashesJoin | src/utils/excelExport.js:23 | removing the dashes of "A-B-C" (parts without dashes) joins the three parts |
| ExcelExport.DateStamp | src/utils/excelExport.js:23 | the file-name date stamp is the year followed by the two-digit month and day |
| ExcelExport.DateStampOfNow | src/utils/excelExport.js:23 | the date stamp of the clock is its UTC year followed by the two-digit month and day |
| ExcelExport.ExportToExcel | src/utils/excelExport.js:8-33 | empty data produces no file; otherwise, unless the write fails, the rows are written under the name filename, "_", the UTC year, the two-digit month and day, and ".xlsx" |
| ExcelExport.OrEmpty | src/utils/excelExport.js:42-60 | a truthy text is read as itself |
| ExcelExport.LearningSheetSpec | src/utils/excelExport.js:40-47 | the learning sheet holds exactly the records with non-empty AI text, in input order, numbered 1..k, each with the student name and the AI text |
| ExcelExport.LearningFileNameOfClass | src/utils/excelExport.js:49 | the class "G-C" names its file "배움기록_G학년C": the first '-' is replaced by "학년" |
| ExcelExport.ExportLearningRecords | src/utils/excelExport.js:40-51 | no file exactly when no record has AI text; a written file holds the learning sheet under the class's file name |
| ExcelExport.NameOr | src/utils/excelExport.js:63-64 | the helper's name column is never empty: a present non-empty name is shown, anything else shows as unknown |
| ExcelExport.ApprovalText | src/utils/excelExport.js:67 | the approval column is '승인' exactly for an approved record and '미승인' exactly for an unapproved one |
| ExcelExport.HelpSheetSpec | src/utils/excelExport.js:58-69 | the help sheet holds exactly the records with non-empty AI text, in order and numbered from 1, with both names or the unknown name, the description, the AI text and the approval word |
| ExcelExport.ExportHelpRecords | src/utils/excelExport.js:58-73 | no file exactly when no record has AI text; a written file holds the help sheet under "도움내용_" plus the class |
| GeminiRecord.AttitudeText | functions/api/gemini-record.js:80-82 | the attitude text is "없음" for a missing or empty process list and the process itself for a single one; longer lists are joined with ", " |
| GeminiRecord.JoinCommaSnoc | functions/api/gemini-record.js:81 | joining one more process adds ", " and that process at the end, and the joined text begins with the first process |
| GeminiRecord.Admit | functions/api/gemini-record.js:18-106 | OPTIONS is answered first with an empty response, any other non-POST method with 405, a missing key with 500 before the body is read; the service is called exactly for type 'help' with a description or 'learning' with core learning; every other early answer is 400, 405 or 500 |
| GeminiRecord.Finish | functions/api/gemini-record.js:132-174 | a non-OK service answer passes its status through; the response is 200 exactly when it carries the trimmed text of the first candidate's first part |
| GeminiRecord.OnRequest | functions/api/gemini-record.js:18-176 | a 200 answer comes only from OPTIONS or from a POST with a key whose service call returned text |
| GeminiRecord.EarlyAnswers | functions/api/gemini-record.js:20-40 | the preflight, a wrong method and a missing key are answered before anything else: neither the key, the body nor the service changes those answers |
| GeminiRecord.ServiceOutcomes | functions/api/gemini-record.js:132-174 | a request that reaches the service ends in the service's status when that is not OK, in 200 with the trimmed first text when there is one, in 500 without candidates, and in 500 on an exception |
| GeminiRecord.LearningPromptAttitude | functions/api/gemini-record.js:71-99 | a learning request with core learning is sent with the attitude text: "없음" for no process, the processes joined by ", " otherwise |
| AdminClass.IdNumbers | src/modules/admin/AdminClassTab.jsx:161-163 | `parseInt` reads each of the id's first two characters as its digit or NaN, and a digit rest as its value |
| AdminClass.ParseId | src/modules/admin/AdminClassTab.jsx:161-177 | an id gives a record exactly when its first character is 3, 4 or 6; the record keeps id and name, has that grade, the second character's digit (or NaN) as class and the rest's value as number |
| AdminClass.LineRecord | src/modules/admin/AdminClassTab.jsx:156-177 | a roster line gives a record only with a non-empty trimmed id and name and a grade of 3, 4 or 6 |
| AdminClass.RosterLine | src/modules/admin/AdminClassTab.jsx:156-177 | a padded line "id,name" with a digit id starting with 3, 4 or 6 gives the record with grade, class and number read from the id and the trimmed name |
| AdminClass.FieldsRecord | src/modules/admin/AdminClassTab.jsx:156-158 | a line whose two fields trim to a non-empty id and name gives the record parsed from that id and name |
| AdminClass.DigitIdRecord | src/modules/admin/AdminClassTab.jsx:161-177 | a digit id of length at least three starting with 3, 4 or 6 gives grade, class and number from its digits |
| AdminClass.NonBlank | src/modules/admin/AdminClassTab.jsx:149 | the `filter(line => line.trim())` keeps only lines that are not blank and never adds lines |
| AdminClass.HeaderSkipped | src/modules/admin/AdminClassTab.jsx:149-152 | after a non-blank first line, the student lines are exactly the non-blank lines that follow it, so the header never gives a student |
| AdminClass.ParseCsv | src/modules/admin/AdminClassTab.jsx:147-178 | the parsing loop pushes, in line order, the records of the lines after the header, each with a non-empty id and name and a grade in {3, 4, 6} |
| AdminClass.SuccessesBound | src/modules/admin/AdminClassTab.jsx:181-189 | successCount never exceeds the number of parsed records, and equals it exactly when every upsert succeeded |
| AdminClass.UploadRecords | src/modules/admin/AdminClassTab.jsx:181-189 | each record is upserted in turn, a failed upsert skipping only that record, and successCount counts the upserts that went through |
| AdminClass.ClassFilter | src/modules/admin/AdminClassTab.jsx:43-61 | a blank filter, or one that does not split into exactly two pieces at '-', shows every student; otherwise exactly the students whose grade and class equal the two parsed numbers, in listing order |
| AdminClass.ClassFilterDigits | src/modules/admin/AdminClassTab.jsx:43-61 | "G-C" of digit runs shows exactly the students of grade G and class C |
| AdminClass.DisplayIsFiltered | src/modules/admin/AdminClassTab.jsx:43-47 | the shown list is the class filter's list for every filter, an empty one included |
| AdminClass.LoginCounts | src/modules/admin/AdminClassTab.jsx:214-216 | loggedInCount is at most totalCount, and the not-logged-in count is their difference |
| AdminClass.HandleAddStudent | src/modules/admin/AdminClassTab.jsx:65-95 | an empty id or name, then a grade other than 3, 4 or 6, each stop with their alert before the table is touched; otherwise the student is upserted, and a failed upsert changes nothing |
| AdminLearningGuide.ClassInfos | src/modules/admin/AdminLearningGuideTab.jsx:35-40 | the class names collected for a grade are exactly the "G-C" texts of that grade's students |
| AdminLearningGuide.GradeClassesSpec | src/modules/admin/AdminLearningGuideTab.jsx:35-44 | each grade's class list holds exactly the classes of that grade's students, each once, in string order |
| AdminLearningGuide.BuildClassMapSpec | src/modules/admin/AdminLearningGuideTab.jsx:35-46 | the class map has one entry per grade of the roster, each grade once and ascending, keyed by its decimal text, so a roster with students gives a non-empty map |
| AdminLearningGuide.ClassMapFor | src/modules/admin/AdminLearningGuideTab.jsx:56-69 | the roster's map is used when the roster loaded with students, and the fixed classes 3-1..3-3, 4-1..4-3, 6-1..6-7 otherwise |
| AdminLearningGuide.Lookup | src/modules/admin/AdminLearningGuideTab.jsx:87-105 | `classMap[key]` is absent exactly when no entry has the key, and otherwise is that entry's class list |
| AdminLearningGuide.Flat | src/modules/admin/AdminLearningGuideTab.jsx:72 | the flattened values hold exactly the classes of every entry |
| AdminLearningGuide.Normalize | src/modules/admin/AdminLearningGuideTab.jsx:63 | normalizing removes every white-space character and nothing else |
| AdminLearningGuide.FormOf | src/modules/admin/AdminLearningGuideTab.jsx:65-121 | the normalized target is, in this order: empty, "전체", the `^(\d+)학년$` form, the `^(\d+)-(\d+)$` form, or unreadable; each form keeps the text it matched |
| AdminLearningGuide.ParseNormalized | src/modules/admin/AdminLearningGuideTab.jsx:62-122 | blank input is an error; "전체" gives every class and is an error when there are none; "N학년" gives grade N's list or an error; "N-M" is accepted only when it is in grade N's list and gives that one class; any other shape is a format error |
| AdminLearningGuide.LookupInFlat | src/modules/admin/AdminLearningGuideTab.jsx:72-87 | a class list found under a grade belongs to the map's classes |
| AdminLearningGuide.ScopeWithinMap | src/modules/admin/AdminLearningGuideTab.jsx:62-122 | a target that is read names at least one class, and only classes of the map |
| AdminLearningGuide.SpacesIgnored | src/modules/admin/AdminLearningGuideTab.jsx:63 | white space anywhere in the target text does not change the result |
| AdminLearningGuide.ClassWordDigits | src/modules/admin/AdminLearningGuideTab.jsx:99-103 | "G-C" of digit runs is read as the class form of G and C |
| AdminLearningGuide.GradeWordDigits | src/modules/admin/AdminLearningGuideTab.jsx:84-86 | digits followed by "학년" are read as the grade form of those digits |
| AdminLearningGuide.FallbackClassTarget | src/modules/admin/AdminLearningGuideTab.jsx:56-121 | with no roster, a one-digit "G-C" target names exactly that class when it is one of 3-1..3-3, 4-1..4-3, 6-1..6-7; otherwise a grade other than 3, 4, 6 is reported missing, and a class the grade lacks is reported missing |
| AdminLearningGuide.FallbackGradeTarget | src/modules/admin/AdminLearningGuideTab.jsx:56-97 | with no roster, a one-digit "G학년" target names the fixed classes of grade G exactly when G is 3, 4 or 6, and reports the grade missing otherwise |
| AdminLearningGuide.SavedCountSpec | src/modules/admin/AdminLearningGuideTab.jsx:143-159 | successCount never exceeds the number of classes, and reaches it exactly when every class was saved by update or by the fallback create |
| AdminLearningGuide.GuideForm.HandleSave | src/modules/admin/AdminLearningGuideTab.jsx:125-175 | an unreadable target is reported and nothing is written; otherwise each class is updated or else created, the saves are counted, full success is reported exactly when all were saved, and only a combined ('통합') full success clears the inputs |
| AdminHelpRecords.Join | src/modules/admin/AdminHelpRecordsTab.jsx:58-74 | the records query gives one joined row per transaction, in table order, carrying the helper's and the helped student's rows |
| AdminHelpRecords.ParseClassInput | src/modules/admin/AdminHelpRecordsTab.jsx:19-40 | on the trimmed input, "D-N…" gives a class, "D학년" a grade and "전체" everything; anything else gives null |
| AdminHelpRecords.ClassFormParses | src/modules/admin/AdminHelpRecordsTab.jsx:19-27 | a padded "D-N" reads back as class (D, N) |
| AdminHelpRecords.GradeFormParses | src/modules/admin/AdminHelpRecordsTab.jsx:19-33 | a padded "D학년" reads back as grade D |
| AdminHelpRecords.TwoDigitGradeRejected | src/modules/admin/AdminHelpRecordsTab.jsx:19-40 | a grade of two digits before '-' is not read as a class |
| AdminHelpRecords.SpacedGradeRejected | src/modules/admin/AdminHelpRecordsTab.jsx:19-40 | a space between the grade and "학년" makes the input unreadable |
| AdminHelpRecords.DescribedNewestFirst | src/modules/admin/AdminHelpRecordsTab.jsx:73-75 | the query keeps exactly the records with a description, newest first |
| AdminHelpRecords.FetchRecords | src/modules/admin/AdminHelpRecordsTab.jsx:43-112 | a blank input and an unreadable input are refused with their messages before any query; otherwise the described records whose helper is in scope, newest first |
| AdminHelpRecords.FetchRecordsSpec | src/modules/admin/AdminHelpRecordsTab.jsx:78-102 | the scope filter keeps exactly the described records whose helper matches the grade (and class), as many as there are, in order |
| AdminHelpRecords.ActionsFor | src/modules/admin/AdminHelpRecordsTab.jsx:357-430 | each record shows exactly one action set: convert without AI text, approve or reconvert with AI text and not approved, unapprove with AI text and approved |
| AdminHelpRecords.UpdateTx | src/modules/admin/AdminHelpRecordsTab.jsx:144 | the update by transaction_id changes exactly the rows of that id and no other |
| AdminHelpRecords.ActionsAfterUpdates | src/modules/admin/AdminHelpRecordsTab.jsx:159-225 | reject and unapprove send a record back to the convert case, unapprove also clears the approval, and approving a converted record moves it to the unapprove case |
| AdminHelpRecords.UpdateTxKeepsIds | src/modules/admin/AdminHelpRecordsTab.jsx:144 | an update keeps the table keyed by transaction id |
| AdminHelpRecords.HandleApprove | src/modules/admin/AdminHelpRecordsTab.jsx:181-202 | after confirmation a successful update marks only that record approved at now; a refusal or a failure changes nothing |
| AdminHelpRecords.HandleReject | src/modules/admin/AdminHelpRecordsTab.jsx:159-179 | after confirmation a successful update clears only that record's AI text; a refusal or a failure changes nothing |
| AdminHelpRecords.HandleUnapprove | src/modules/admin/AdminHelpRecordsTab.jsx:204-225 | after confirmation a successful update clears that record's approval, approved_at and AI text; a refusal or a failure changes nothing |
| AdminHelpRecords.FindRecord | src/modules/admin/AdminHelpRecordsTab.jsx:123 | `find` gives the first shown record with that id, and nothing exactly when no shown record has it |
| AdminHelpRecords.HandleConvert | src/modules/admin/AdminHelpRecordsTab.jsx:115-157 | conversion is refused without an API key, for a record not shown or without description, and without confirmation; otherwise a successful conversion and update store the text as that record's AI text and nothing else changes |
| AdminHelpRecords.ApprovalCounts | src/modules/admin/AdminHelpRecordsTab.jsx:450-451 | the approved count plus the unapproved count equals the total |
| AdminHelp.GradeScope | src/modules/admin/AdminHelpTab.jsx:31-35 | the "학년" form gives a scope exactly when `parseInt` of the text with its first "학년" removed is a number, and then it is that whole grade |
| AdminHelp.ClassScope | src/modules/admin/AdminHelpTab.jsx:37-41 | the '-' form gives a scope exactly when both `Number` pieces of the split are numbers, and then it is that grade and class |
| AdminHelp.ParseResetScope | src/modules/admin/AdminHelpTab.jsx:24-44 | on the trimmed input, "전체" is everything; then text containing "학년" is read by the grade form; then text containing '-' by the class form; anything else is null |
| AdminHelp.GradeWordForm | src/modules/admin/AdminHelpTab.jsx:31-35 | "A학년", for A starting with a digit and containing no '학', is read by the grade form from A |
| AdminHelp.GradeBeforeDash | src/modules/admin/AdminHelpTab.jsx:31-41 | "학년" is tested before '-': "G-C학년" is the whole grade G, not the class |
| AdminHelp.GradeWordValue | src/modules/admin/AdminHelpTab.jsx:31-35 | "A학년" is the whole grade `parseInt(A)` |
| AdminHelp.ClassForm | src/modules/admin/AdminHelpTab.jsx:37-41 | "G-C" of digits is read by the class form and splits into G and C |
| AdminHelp.DashForms | src/modules/admin/AdminHelpTab.jsx:37-41 | "G-C" of digits is class C of grade G, and since `Number('')` is 0, "G-" is class 0 of grade G |
| AdminHelp.NaNClassRejected | src/modules/admin/AdminHelpTab.jsx:38-39 | a class side that is not a number makes the input null |
| AdminHelp.ScopeIds | src/modules/admin/AdminHelpTab.jsx:66-79 | the collected ids are exactly those of the students in scope |
| AdminHelp.HandleReset | src/modules/admin/AdminHelpTab.jsx:46-103 | an unreadable scope, a refused confirmation, a failed query and a grade or class with no students change nothing; otherwise the active requests of the students in scope (everyone's, for "전체") are deactivated and all other rows are left as they were |
| AdminHelp.ResetEffect | src/modules/admin/AdminHelpTab.jsx:59-89 | after a scoped reset no student in scope has an active request, and the rows of students out of scope are as they were |
| AdminPoints.ParseClassQuery | src/modules/admin/AdminPointsTab.jsx:22-40 | a blank text, a text that does not split into two parts around '-', and a grade that `parseInt` does not read as 3, 4 or 6 are each refused with their own message; otherwise the query is that grade and the class part as `parseInt` reads it |
| AdminPoints.ClassQueryDigits | src/modules/admin/AdminPointsTab.jsx:28-40 | "G-C" with a one-digit grade 3, 4 or 6 is the query for G and C; any other grade digit is refused with the grade message |
| AdminPoints.ClassQueryFormat | src/modules/admin/AdminPointsTab.jsx:28-32 | a non-blank text without '-' is refused for its format |
| AdminPoints.ClassStudents | src/services/studentService.js:9-23 | the lookup succeeds exactly when the query succeeds and the class is a number, and then it holds exactly the students of that grade and class |
| AdminPoints.EntryOf | src/modules/admin/AdminPointsTab.jsx:58-73 | each shown entry keeps the student; a failed or empty lookup shows 0 of 20; a found row shows its current points, and its maximum unless that is 0 |
| AdminPoints.EntryOfStoredRow | src/modules/admin/AdminPointsTab.jsx:60-65 | a stored row with a non-zero maximum is shown as it is |
| AdminPoints.WithPoints | src/modules/admin/AdminPointsTab.jsx:57-75 | one entry per student of the class, in order, each built from that student's own lookup |
| AdminPoints.EditingOf | src/modules/admin/AdminPointsTab.jsx:80-84 | the editing values have exactly the ids of the shown students as keys |
| AdminPoints.EditingOfLast | src/modules/admin/AdminPointsTab.jsx:80-84 | each id's editing value is the points of the last entry with that id |
| AdminPoints.SetCurrent | src/modules/admin/AdminPointsTab.jsx:120-124 | the entries keep their order, students and maximums; only this student's current points become the new value |
| AdminPoints.SetCurrentTwice | src/modules/admin/AdminPointsTab.jsx:120-157 | setting one student's points twice keeps only the second, and setting them to what they already are changes nothing |
| AdminPoints.PointsPanel.HandleFetchClass | src/modules/admin/AdminPointsTab.jsx:21-94 | a refused class text only sets its message; a failed lookup empties the list; an empty class empties the list with its warning; otherwise the list becomes the class with its points and the editing values are reset to them |
| AdminPoints.PointsPanel.HandlePointsChange | src/modules/admin/AdminPointsTab.jsx:97-105 | a value `parseInt` reads as an integer from 0 to 20 becomes this student's editing value and anything else is ignored, so the editing values stay within 0 to 20 |
| AdminPoints.PointsPanel.HandleUpdateStudent | src/modules/admin/AdminPointsTab.jsx:108-131 | a missing or out-of-range editing value is refused; a failed update changes nothing; after a successful one only this student's shown points change, to the saved value, with the success message |
| AdminPoints.PointsPanel.OnPointsChange | src/modules/admin/AdminPointsTab.jsx:143-166 | an insert or update for a student in the list sets that student's shown and editing points; a delete or a student not in the list changes nothing |
| ItemList.ValidItems | src/modules/admin/AdminRandomPickTab.jsx:57 | the saved entries are exactly the entries that are not blank |
| ItemList.ValidItemsAppend | src/modules/admin/AdminRandomPickTab.jsx:37-57 | filtering keeps order across a concatenation, and an added empty entry is never saved |
| ItemList.RemovedAt | src/modules/admin/AdminRandomPickTab.jsx:41-43 | removing at a valid index drops exactly that entry and shifts the later ones down by one; an index out of range removes nothing |
| ItemList.ItemForm.AddItem | src/modules/admin/AdminRandomPickTab.jsx:37-39 | one empty entry is appended and what would be saved is unchanged |
| ItemList.ItemForm.RemoveItem | src/modules/admin/AdminRandomPickTab.jsx:41-43 | only the entry at the index goes, the others keep their order, and no entry is added |
| ItemList.ItemForm.UpdateItem | src/modules/admin/AdminRandomPickTab.jsx:45-49 | the entry at the index becomes the typed value and every other entry is kept |
| ItemList.ItemForm.Checked | src/modules/admin/AdminRandomPickTab.jsx:52-61 | a blank name is refused first, then a form whose entries are all blank; a form that passes both is saved with its non-blank entries, of which there is at least one |
| AdminRandomPick.Edited | src/modules/admin/AdminRandomPickTab.jsx:116-123 | the category with the id gets the new name and items; every category keeps its id and switch, and every other category is unchanged |
| AdminRandomPick.WithActive | src/modules/admin/AdminRandomPickTab.jsx:150-153 | only the category with the id gets the new switch; the list otherwise is unchanged |
| AdminRandomPick.Without | src/modules/admin/AdminRandomPickTab.jsx:138-141 | exactly the categories with other ids remain |
| AdminRandomPick.ToggleTwice | src/modules/admin/AdminRandomPickTab.jsx:149-158 | switching a category flips its flag, and switching it back from the flag shown restores the list |
| AdminRandomPick.KeysKept | src/modules/admin/AdminRandomPickTab.jsx:116-153 | editing and switching keep the table's ids, unique as before |
| AdminRandomPick.DeleteKeepsKeys | src/modules/admin/AdminRandomPickTab.jsx:138-141 | deleting keeps the ids unique and loses only the deleted one |
| AdminRandomPick.PickTab.ToggleSection | src/modules/admin/AdminRandomPickTab.jsx:168 | a section header opens its section, or closes it when it is the one already open |
| AdminRandomPick.PickTab.SaveCategory | src/modules/admin/AdminRandomPickTab.jsx:51-80 | a form that passes the checks is stored as a new active category with its non-blank items, shown first, and the form is reset and the section closed; a refused form or failed insert leaves the list and the form as they were |
| AdminRandomPick.PickTab.StartEdit | src/modules/admin/AdminRandomPickTab.jsx:83-88 | the edit form gets the category's name and items, and the edit section opens |
| AdminRandomPick.PickTab.SaveEdit | src/modules/admin/AdminRandomPickTab.jsx:104-133 | a form that passes the checks and a successful update give the category being edited the form's name and non-blank items, end the editing and close the section; otherwise nothing changes |
| AdminRandomPick.PickTab.DeleteCategory | src/modules/admin/AdminRandomPickTab.jsx:135-147 | after a confirmation and a successful delete exactly that category is gone and the others keep their order; otherwise the list is unchanged |
| AdminRandomPick.PickTab.ToggleActive | src/modules/admin/AdminRandomPickTab.jsx:149-158 | after a successful update the category has the opposite of the flag it was shown with and the others are unchanged; a failed update changes nothing |
| AdminRole.RoleCountFair | src/modules/admin/AdminRoleTab.jsx:133-138 | the per-role counts are fair: an earlier role gets at least as many students as a later one, and no two counts differ by more than one |
| AdminRole.Repeat | src/modules/admin/AdminRoleTab.jsx:139-141 | the inner loop pushes exactly `count` copies of the role |
| AdminRole.RoleArrayLength | src/modules/admin/AdminRoleTab.jsx:131-142 | the role array has exactly one entry per student |
| AdminRole.RoleArrayCounts | src/modules/admin/AdminRoleTab.jsx:131-142 | with distinct role names, each role appears in the role array exactly as often as its fair count |
| AdminRole.RoleArrayOnlyRoles | src/modules/admin/AdminRoleTab.jsx:136-142 | a name that is not one of the session's roles never appears in the role array |
| AdminRole.BuildRoleArray | src/modules/admin/AdminRoleTab.jsx:131-142 | the nested loops build exactly the role array: one entry per student, each role repeated its count, in role order |
| AdminRole.FindSession | src/modules/admin/AdminRoleTab.jsx:94 | nothing is found exactly when no session has the id; what is found is the first listed session with that id |
| AdminRole.Edited | src/modules/admin/AdminRoleTab.jsx:281-288 | the session with the id gets the new name and roles; every other session is unchanged |
| AdminRole.ClassNames | src/modules/admin/AdminRoleTab.jsx:95 | no class name in the list is empty |
| AdminRole.ClassNamesSpec | src/modules/admin/AdminRoleTab.jsx:95 | the class names are exactly the trimmed comma-separated pieces that are not empty |
| AdminRole.ClassNamesSingle | src/modules/admin/AdminRoleTab.jsx:95 | a text without a comma names at most one class, itself trimmed |
| AdminRole.ClassOf | src/modules/admin/AdminRoleTab.jsx:106-111 | a class read from its name has a grade and a class number that are both non-zero numbers |
| AdminRole.ClassOfDigits | src/modules/admin/AdminRoleTab.jsx:106-111 | "G-C" of digits is the class (G, C) when neither reads 0, and is refused otherwise, so "3-" and "3-0" are refused |
| AdminRole.StepFor | src/modules/admin/AdminRoleTab.jsx:106-128 | a class name that does not read as a class is refused, a readable class whose query failed reports the failure, and a class that is found has students |
| AdminRole.StepForFound | src/modules/admin/AdminRoleTab.jsx:113-128 | a readable class is found exactly when the table has a student in it, and then it holds exactly that grade and class's students |
| AdminRole.ShuffledRolesSpec | src/modules/admin/AdminRoleTab.jsx:144-145 | the shuffled roles are the role array reordered: one per student, each role as often as in the array |
| AdminRole.AssignedList | src/modules/admin/AdminRoleTab.jsx:176-183 | the results line has one entry per student, each with that student's id, name and handed-out role |
| AdminRole.AssignmentRows | src/modules/admin/AdminRoleTab.jsx:148-155 | one record per student of the class, each with the session, the class name, the student and the student's role |
| AdminRole.RoleRows | src/modules/admin/AdminRoleTab.jsx:160-165 | one new active role row per student, with the student's role |
| AdminRole.Deactivated | src/modules/admin/AdminRoleTab.jsx:168-171 | the role rows of the listed students become inactive; all other rows are unchanged |
| AdminRole.RoleTables.WriteClass | src/modules/admin/AdminRoleTab.jsx:157-174 | the hand-out records, the deactivation and the new roles each take effect only when their own write succeeds |
| AdminRole.WriteClassEffect | src/modules/admin/AdminRoleTab.jsx:157-174 | after all writes succeed, the class's students have no active row from before, each has one new active row with the role handed out, and other students' rows are unchanged |
| AdminRole.HandOut | src/modules/admin/AdminRoleTab.jsx:131-154 | the roles handed to a class are one per student, and together they are the role array |
| AdminRole.HandOutCounts | src/modules/admin/AdminRoleTab.jsx:131-154 | with distinct role names, each role is handed to exactly its fair count of students |
| AdminRole.ResultOf | src/modules/admin/AdminRoleTab.jsx:104-183 | each class gets its own result line; the hand-out stops exactly when the class has students but no session was found; only a class that was found gets roles |
| AdminRole.ResultsOf | src/modules/admin/AdminRoleTab.jsx:102-186 | when the session was found there is one result line per class, in the order the classes were given |
| AdminRole.ResultsStopped | src/modules/admin/AdminRoleTab.jsx:104-184 | once the hand-out stops at one class, it stays stopped for the whole list |
| AdminRole.AssignmentsAfterExtends | src/modules/admin/AdminRoleTab.jsx:148-157 | the hand-out only adds records: earlier records are kept, and every added one belongs to the session and to one of the given classes |
| AdminRole.HandOutClasses | src/modules/admin/AdminRoleTab.jsx:102-184 | the loop over the classes collects exactly the result lines and writes exactly the table changes of its specification; with no session found, no table changes |
| AdminRole.OtherSessions | src/modules/admin/AdminRoleTab.jsx:232-235 | the records left are exactly those of the other sessions |
| AdminRole.RoleTab.SaveSession | src/modules/admin/AdminRoleTab.jsx:57-85 | a form that passes the checks is stored with its non-blank roles, listed first, and the form is cleared; a refused form or failed insert changes nothing, and a failed insert reports "저장 실패: " followed by the client's error message |
| AdminRole.RoleTab.StartEdit | src/modules/admin/AdminRoleTab.jsx:248-253 | the edit form gets the session's name and roles |
| AdminRole.RoleTab.SaveEdit | src/modules/admin/AdminRoleTab.jsx:269-298 | a form that passes the checks and a successful update give the session being edited the form's name and non-blank roles and end the editing; otherwise nothing changes, and a failed update reports "수정 실패: " followed by the client's error message |
| AdminRole.RoleTab.DeleteSession | src/modules/admin/AdminRoleTab.jsx:300-312 | after a confirmation and a successful delete the sessions with that id are gone and the others keep their order; otherwise nothing changes |
| AdminRole.RoleTab.AssignRoles | src/modules/admin/AdminRoleTab.jsx:88-188 | no selected session and no class names are each refused without writes; otherwise the results are those of every class, the tables change exactly as the classes were handed out, and a stopped hand-out leaves the results as they were |
| AdminRole.RoleTab.CancelAssignments | src/modules/admin/AdminRoleTab.jsx:190-245 | no selection, no confirmation and a failed fetch stop with nothing changed; a failed deactivation (only tried when the session has students) stops before any deletion; it ends Cancelled exactly when every step it needs succeeds and DeleteFailed exactly when only the delete fails; the session's students' roles become inactive, and a successful delete removes exactly the session's records and clears the results |
| LearningRecordAdmin.Load | src/services/learningRecordService.js:12-64 | the answer is a failure when the class does not read or a query fails, no records for a class without students, and otherwise the latest record of each student of the class |
| LearningRecordAdmin.Updated | src/modules/admin/LearningRecordAdmin.jsx:80-136 | the handlers' map keeps the list's length and order and changes exactly the rows they aim at |
| LearningRecordAdmin.WithoutRecord | src/modules/admin/LearningRecordAdmin.jsx:154 | exactly the rows of other records remain |
| LearningRecordAdmin.DateSelectKeepsNames | src/modules/admin/LearningRecordAdmin.jsx:79-87 | choosing a date keeps every row's student name and shows the chosen record on that student's rows |
| LearningRecordAdmin.RecordAdmin.FetchRecords | src/modules/admin/LearningRecordAdmin.jsx:29-51 | a blank class is refused without loading; a loaded answer replaces the list, with a notice when it is empty; a failed load keeps the list and reports the failure |
| LearningRecordAdmin.RecordAdmin.HandleDateToggle | src/modules/admin/LearningRecordAdmin.jsx:67-76 | the open student closes; another student opens, and their dates are loaded only the first time and only when the query succeeds |
| LearningRecordAdmin.RecordAdmin.HandleDateSelect | src/modules/admin/LearningRecordAdmin.jsx:79-87 | that student's rows show the chosen record under the name they had, other rows are unchanged, and the date list closes |
| LearningRecordAdmin.RecordAdmin.HandleConvert | src/modules/admin/LearningRecordAdmin.jsx:90-121 | a record without core learning and a failed generation are refused with the table unchanged; after generation the table gets the text on exactly that record when the save succeeds and is unchanged when it fails; on success only that record's rows show the generated text, with the done message |
| LearningRecordAdmin.RecordAdmin.HandleApprove | src/modules/admin/LearningRecordAdmin.jsx:124-143 | without confirmation nothing changes; a confirmed approval marks exactly that record approved at now in the table when it succeeds and leaves the table unchanged when it fails; a failed approval alerts and changes nothing on screen; otherwise only that record's rows show as approved |
| LearningRecordAdmin.RecordAdmin.HandleDelete | src/modules/admin/LearningRecordAdmin.jsx:146-161 | without confirmation nothing changes; a failed delete alerts and leaves the table and the list unchanged; otherwise the record leaves the table and exactly its rows leave the list |
| LearningRecordAdmin.RecordAdmin.Export | src/modules/admin/LearningRecordAdmin.jsx:164-183 | a download happens exactly when the class is not blank and some row has AI text; a blank class and an empty list are refused with their own alerts; the sheet written is that of the whole list |
| FriendVoteManagement.VoteTab.constructor | src/modules/admin/FriendVoteManagement.jsx:18-27 | the tab opens idle, without session or results, on the three default questions with the settings section open |
| FriendVoteManagement.VoteTab.LoadActiveSession | src/modules/admin/FriendVoteManagement.jsx:34-50 | an active session found on opening is taken over with its questions and the vote shows as running; no session or a failed lookup changes nothing |
| FriendVoteManagement.VoteTab.StartVote | src/modules/admin/FriendVoteManagement.jsx:53-79 | a blank question is refused with nothing changed; otherwise the earlier active sessions are completed at now when that lookup and update succeed, and a successful insert adds a new active session with the three questions, in which the vote runs; a failed insert leaves only the completion and the tab as it was |
| FriendVoteManagement.VoteTab.EndAndViewResults | src/modules/admin/FriendVoteManagement.jsx:82-107 | without a session only an alert; a successful end completes exactly that session with end time now and changes no other row, a failed end changes no row; successful results then complete the vote with the three questions' results and open the results section; a failed call keeps the vote where it was |
| FriendVoteManagement.VoteTab.ResetVote | src/modules/admin/FriendVoteManagement.jsx:110-136 | without confirmation nothing changes; without a session only an alert; a successful delete removes the session and its ballots and returns the tab to idle without results; a failed delete changes nothing |
| FriendVoteManagement.VoteTab.SetQuestion | src/modules/admin/FriendVoteManagement.jsx:158-189 | typing changes only the question typed into |
| FriendVoteManagement.VoteTab.ToggleSection | src/modules/admin/FriendVoteManagement.jsx:146 | each section header flips only its own section |
| LearningRecordPanel.Toggled | src/modules/student/LearningRecordPanel.jsx:72-78 | the toggled item is checked exactly when it was not; every other item keeps its state; a newly checked item goes at the end |
| LearningRecordPanel.ToggleNoDup | src/modules/student/LearningRecordPanel.jsx:72-78 | toggling never lists an item twice |
| LearningRecordPanel.ToggleTwice | src/modules/student/LearningRecordPanel.jsx:72-78 | toggling an unchecked item twice gives back the list; toggling a checked one twice gives back the same items |
| LearningRecordPanel.CanSubmitIgnoresPadding | src/modules/student/LearningRecordPanel.jsx:81-83 | white space around the core learning never decides whether a submit is allowed: 10 characters of trimmed core learning or one checked item are needed |
| LearningRecordPanel.BlankCannotSubmit | src/modules/student/LearningRecordPanel.jsx:81-83 | a blank entry with nothing checked cannot be submitted |
| LearningRecordPanel.Stored | src/modules/student/LearningRecordPanel.jsx:100-102 | blank text is stored as null and other text is stored trimmed |
| LearningRecordPanel.StoredIsTrimmed | src/modules/student/LearningRecordPanel.jsx:100-102 | stored text neither starts nor ends with white space, so storing it again stores the same text |
| LearningRecordPanel.Apply | src/modules/student/LearningRecordPanel.jsx:109-112 | an updated row keeps its id, AI text and approval and takes every written field of the draft |
| LearningRecordPanel.Inserted | src/modules/student/LearningRecordPanel.jsx:117-121 | an inserted row has the draft's fields, no AI text, and is not approved |
| LearningRecordPanel.AfterWrite | src/modules/student/LearningRecordPanel.jsx:107-125 | with today's record, the write changes only that record's rows, which then hold the draft; without it, the write appends one new row |
| LearningRecordPanel.Write | src/modules/student/LearningRecordPanel.jsx:107-125 | the write succeeds exactly when the database accepts it; then the table becomes its specification and an insert returns the new row; a failed write leaves the table as it was |
| LearningRecordPanel.TodayRecord | src/modules/student/LearningRecordPanel.jsx:45-52 | `.single()` gives a record exactly when the query succeeds and exactly one row is the student's for today, and then it is that row |
| LearningRecordPanel.Panel.constructor | src/modules/student/LearningRecordPanel.jsx:11-37 | the panel opens empty, with the stored student id, an empty id counting as none |
| LearningRecordPanel.Panel.DraftOf | src/modules/student/LearningRecordPanel.jsx:97-105 | the draft written has the student's checked items, today's date, the core learning and thoughts as stored, and the submitted flag of the button pressed |
| LearningRecordPanel.Panel.FetchToday | src/modules/student/LearningRecordPanel.jsx:41-69 | a record found for today fills the form and says whether it was submitted, and a submitted one disables both buttons; otherwise nothing changes |
| LearningRecordPanel.Panel.ToggleProcess | src/modules/student/LearningRecordPanel.jsx:72-78 | only the checklist changes, by the toggle |
| LearningRecordPanel.Panel.SetCoreLearning | src/modules/student/LearningRecordPanel.jsx:12 | only the core learning changes, to what was typed |
| LearningRecordPanel.Panel.TempSave | src/modules/student/LearningRecordPanel.jsx:86-134 | without a student only the login message; otherwise the draft is written as not submitted, and an insert makes the new row today's record; a failed write changes nothing but the message |
| LearningRecordPanel.Panel.Submit | src/modules/student/LearningRecordPanel.jsx:137-205 | no student, too little content and an already submitted record are each refused with their message; a cancelled confirmation changes nothing; otherwise the draft is written as submitted, and an insert makes the new row today's record and disables both buttons; a failed write changes nothing but the message |
| FriendVoteModal.Available | src/modules/student/FriendVoteModal.jsx:46-60 | the classmates offered for a question are exactly those of the class list that are not the voter and not chosen for another question |
| FriendVoteModal.OwnChoiceKept | src/modules/student/FriendVoteModal.jsx:46-60 | what is offered for a question does not depend on that question's own choice, so the current choice stays on offer |
| FriendVoteModal.AvailableKeepsOrder | src/modules/student/FriendVoteModal.jsx:46-60 | the offer keeps the class list's order |
| FriendVoteModal.ChoicesFromOffers | src/modules/student/FriendVoteModal.jsx:46-68 | a classmate picked from the offer is never the voter and never the choice of another question |
| FriendVoteModal.Checked | src/modules/student/FriendVoteModal.jsx:73-84 | a missing or empty choice is refused first; three choices that are not pairwise different are refused next; otherwise the ballot is the three choices in order |
| FriendVoteModal.ThreeDistinct | src/modules/student/FriendVoteModal.jsx:79-81 | the set of the three choices has three members exactly when they are pairwise different |
| FriendVoteModal.ClassList | src/modules/student/FriendVoteModal.jsx:28-36 | an id that does not name a class is a load failure; otherwise the list is the class query for the class the id names |
| FriendVoteModal.ClassListOfDigitId | src/modules/student/FriendVoteModal.jsx:28-36 | for a four-digit id the list is the query for the grade and class of its first two digits |
| FriendVoteModal.VoteModal.constructor | src/modules/student/FriendVoteModal.jsx:16-24 | the modal opens with no class list, nothing chosen and the voter's stored id |
| FriendVoteModal.VoteModal.FetchStudents | src/modules/student/FriendVoteModal.jsx:27-43 | a loaded class list is shown; a failed load alerts and keeps the list |
| FriendVoteModal.VoteModal.Select | src/modules/student/FriendVoteModal.jsx:63-68 | only the question chosen for changes |
| FriendVoteModal.VoteModal.Submit | src/modules/student/FriendVoteModal.jsx:71-109 | choices that fail the checks are refused with their alert and no ballot; a failed write shows its error and changes no ballot; otherwise the ballots become what submitVote leaves: the voter's single ballot in the session gets the three choices, or a ballot is appended, and the vote is complete |
| HelpButtons.CheckMyStatus | src/modules/student/HelpNeedButton.jsx:16-26 | without a stored id nothing changes; a failed lookup keeps the status shown and the table; otherwise the status shown is that of the student's live request, none exactly when there is no live request, and the table is left as getMyActiveRequest leaves it: an expired active request is deactivated when that update succeeds |
| HelpButtons.HelpButton.constructor | src/modules/student/HelpNeedButton.jsx:12-13 | a button opens with no status and not loading |
| HelpButtons.HelpButton.Refresh | src/modules/student/HelpNeedButton.jsx:28-54 | the realtime re-check shows the status of the student's live request, keeps the status shown when there is no stored id or the lookup fails, and leaves the table as getMyActiveRequest does, deactivating an expired request |
| HelpButtons.HelpButton.Click | src/modules/student/HelpNeedButton.jsx:57-86 | ignored while loading; without a stored id only an alert; from its own status the request is cancelled, leaving no live request; from no status a live request with its own status is created; from the other status only an alert; a failed call alerts and keeps the status, and a failed create leaves the table with the earlier request deactivated when that first step succeeded; the "도와줄게!" button (HelpGiveButton.jsx, same lines) is the same toggle with the helping status as its own |
| HelpButtons.HelpersFor | src/modules/student/HelpThanksButton.jsx:76-78 | an id that does not name a class is a load failure; otherwise the helpers are getHelpingStudents' answer for the class the id names |
| HelpButtons.HelpersForDigitId | src/modules/student/HelpThanksButton.jsx:76-78 | for a four-digit id the helpers offered are exactly the helping students of the grade and class of its first two digits |
| HelpButtons.ThanksButton.constructor | src/modules/student/HelpThanksButton.jsx:14-18 | the button opens with no status, no modal, no helpers and nobody chosen |
| HelpButtons.ThanksButton.Refresh | src/modules/student/HelpThanksButton.jsx:21-59 | the realtime re-check shows the status of the student's live request, keeps the status shown when there is no stored id or the lookup fails, leaves the table as getMyActiveRequest does, and leaves the modal alone |
| HelpButtons.ThanksButton.Click | src/modules/student/HelpThanksButton.jsx:62-91 | without a stored id, and when not requesting, only an alert; otherwise a non-empty list of helpers opens the modal on that list, and an empty list or a failed lookup only alerts |
| HelpButtons.ThanksButton.Choose | src/modules/student/HelpThanksButton.jsx:197 | picking a helper chooses exactly that helper |
| HelpButtons.ThanksButton.CloseModal | src/modules/student/HelpThanksButton.jsx:233-236 | cancelling closes the modal and forgets the choice |
| HelpButtons.ThanksButton.Confirm | src/modules/student/HelpThanksButton.jsx:94-126 | without a chosen helper only an alert; a failed points lookup alerts; a helper already at 20 points is refused before any transaction; a grant needs a helper below the limit, ends the student's request, closes the modal and clears the status; without a grant the request table and the modal are as they were |
| Timer.DigitsOnly | src/modules/student/TimerModule.jsx:148-152 | the filtered input holds only digits, is no longer than what was typed, and keeps every digit typed as often as it was typed |
| Timer.DigitsOnlyKeepsDigits | src/modules/student/TimerModule.jsx:148-152 | input that is all digits passes the filter unchanged |
| Timer.DigitsOnlyIdempotent | src/modules/student/TimerModule.jsx:148-152 | filtering twice is filtering once |
| Timer.DigitsOnlyAppend | src/modules/student/TimerModule.jsx:148-152 | the digits of two pieces of text typed one after the other are the digits of the first followed by those of the second |
| Timer.Next | src/modules/student/TimerModule.jsx:20-31 | one step of the effect never adds time or starts a stopped timer; the seconds go down (one interval firing) exactly when the timer runs with time left; the alarm is raised only by a running timer at zero, which then stops (the effect re-running at once); a stopped timer stays as it is |
| Timer.CountsDown | src/modules/student/TimerModule.jsx:20-31 | started with s seconds, after n ≤ s steps (n seconds) the timer is still running with s − n seconds left |
| Timer.AlarmAfter | src/modules/student/TimerModule.jsx:20-31 | started with s seconds, the timer has stopped at zero with the alarm raised after s + 1 steps: the s interval firings and the effect's immediate re-run at zero, so at s seconds |
| Timer.AfterSplit | src/modules/student/TimerModule.jsx:20-31 | m + n steps are m steps followed by n steps |
| Timer.StoppedStays | src/modules/student/TimerModule.jsx:20-31 | a stopped timer keeps its seconds however many steps pass |
| Timer.TimerCard.constructor | src/pages/StudentPage.jsx:30-33 | the card opens at zero seconds, stopped, without alarm, with an empty input |
| Timer.TimerCard.Tick | src/modules/student/TimerModule.jsx:20-31 | one step of the countdown effect, either an interval firing or the re-run at zero, moves the card's clock as Next does and leaves the input alone |
| Timer.TimerCard.Type | src/modules/student/TimerModule.jsx:148-152 | the input becomes the digits of what was typed, and nothing else changes |
| Timer.TimerCard.Start | src/modules/student/TimerModule.jsx:80-87 | the countdown starts exactly when the input reads as a positive number, from that many seconds, clearing the input; otherwise nothing changes |
| Timer.TimerCard.Stop | src/modules/student/TimerModule.jsx:89-92 | the countdown pauses with the seconds it has left |
| Timer.TimerCard.Resume | src/modules/student/TimerModule.jsx:170-173 | the countdown goes on from the seconds it had left |
| Timer.TimerCard.Reset | src/modules/student/TimerModule.jsx:94-98 | the card returns to zero seconds, stopped, with an empty input |
| Timer.TimerCard.CloseAlarm | src/modules/student/TimerModule.jsx:109-119 | the alarm is dismissed and the countdown is untouched |

## Left out

- The database client, realtime channels, `fetch` to the generative-language API and storage uploads. Every query and write is a boolean or value input, and a realtime push is an explicit method call (`Refresh`, `OnPointsChange`). `uploadHoverImage` and `subscribeToTeacherReplies` are not part of this model. The stored procedures `get_vote_results`, `get_active_vote_session`, `has_student_voted` and `get_class_daily_points_summary` are inputs.
- Concurrency between browsers and the interleaving of `await`s inside one handler: each handler runs to completion with one sequential caller.
- The spinner flags: loading states are not modelled, except the `loading` guard of the "도와줄래?" and "도와줄게!" buttons.
- `alert`, `confirm`, `localStorage` and timers. Confirmation is a boolean input, the stored student id is a parameter, and alerts are returned strings.
- Floating point: `averagePoints` with `toFixed`, the gauge percentage, and the float rounding in `calculatePointsPercent`, of which only the 0 and ≤ 100 bounds are stated.
- JavaScript coercions beyond digit strings. `parseInt` skips leading white space, reads an optional '+' or '-' sign and then leading ASCII digits, else NaN. `Number` reads trimmed digit strings with an optional sign, with "" as 0, else NaN. Hex, decimals and exponents are not modelled, and strings are sequences of characters with no UTF-16 surrogate handling.
- A query with a NaN grade or class (`.eq('class_number', NaN)`) is modelled as a failed query.
- Local-time formatting (`formatTime`, `formatDateTime`, `toLocaleDateString`), the XLSX file write and the clipboard.
- Dates are non-negative years. `toISOString`'s expanded years are not modelled.
- Time.IsSessionExpired and Time.IsToday take a present or missing timestamp; a stored text that `new Date` cannot read (an Invalid Date, for which both comparisons are false, so such a session never expires and is never today) is not modelled.
- Randomness: the role shuffle is an arbitrary reordering passed in, and the random pick is not part of this model.
- The AI conversion text is an input to `HandleConvert` and to the help-record conversion; `generateSchoolRecord` is not part of this model.
- String ordering uses code-unit lexicographic order in place of the database's collation.
- `vote_count` from the results procedure is taken as an integer.
- `updateDailyPoints` retries once after creating a missing row; the model takes each attempt's outcome as an input and does not loop further.
- GetHoverMessage: whether the client's error for a missing row contains 'Row not found' is the input `notFoundText`; the client's actual wording is not modelled.
- The message id counter is a table field, not the database's sequence.
- A help request's `started_at` is always present; a null `started_at` is not modelled.
- The upstream error body of a non-OK response of the proxy is not modelled, only its status.
- Request-body fields of the proxy that are not strings are read as absent.
- ExcelExport.HelpSheetSpec: the help sheet's date column (`toLocaleDateString` of transaction_time) is not modelled.
- `approved_at` is the `now` of the call in milliseconds.
- The countdown timer's audio and `setInterval` timing are not modelled. One call of `Tick` is one step of the countdown effect: an interval firing (one second) while time is left, or the effect's immediate re-run when the seconds reach 0, which is not a further second.
- The timer's card flipping is not modelled.
- Which of the timer's buttons are shown or disabled (src/modules/student/TimerModule.jsx:140-178) is not a precondition: every handler can be called in every state.
- FriendVoteManagement.VoteTab: which buttons are shown is not a precondition. After an end whose results call fails, the session is already completed in the table while the tab still shows the vote as running, which is modelled as written.
- LearningRecordPanel.Panel.Submit: a submit that updates an existing record leaves `todayRecord` unsubmitted until the re-fetch one second later, which is a separate `FetchToday` call, modelled as written. The thoughts input is not rendered, so it stays as loaded. `updated_at` and `submitted_at` are not modelled, and the date is an input.
- FriendVoteModal.VoteModal.Submit: a voter without a stored id submits "" rather than null. The two-second delay and `onVoteComplete` are the returned `complete` flag.
- Votes.VoteError: a failed vote call stands for the thrown client error as one fixed text; the alert of FriendVoteModal.VoteModal.Submit shows the client's `error.message`, or a default when it is empty, and that text is not modelled.
- HelpButtons.ThanksButton.Confirm: the flags of the helper's points lookup are inputs, and the contract does not restate the point added by `completeHelp`, which `Help.CompleteHelp` states.
- HelpButtons.HelpButton.Click: the created request's `started_at` is the `now` of the call.
- FriendVoteModal.VoteModal.FetchStudents and HelpButtons.ThanksButton.Click take the service's answer as a parameter; FriendVoteModal.ClassList and HelpButtons.HelpersFor tie that answer to the query.
- LearningRecordAdmin.RecordAdmin.FetchRecords takes the loaded answer as a parameter; LearningRecordAdmin.Load ties it to getLatestRecords. The immediate fetch on opening is not modelled.
- AdminClass: a roster upload with a NaN class is an upload failure. handleUpdateStudent and handleDeleteStudent are not part of this model.
- AdminLearningGuide: the class map's order for non-numeric grade keys is not modelled, and neither is handleSearch.
- AdminPoints: `averagePoints` is left out (floating point), and a NaN class is a failed query.
- AdminRole: the text of `error.message` in an error line, and in the save and edit alerts, is an input. The three writes of a class report only success or failure.
- AdminRandomPick: the list is not re-fetched after a write. The write's effect on the shown list is modelled directly. `updated_at` is not modelled. A failed delete raises no alert, as written.
- ItemList.ItemForm.UpdateItem: requires the index to be within the list; the source would extend the list with holes for an index past its end.
- Validation.ValidateAdminPassword has no contract row of its own; Auth.LoginAdmin states it.
- HelpSettings: `getSettingsByScope` has no contract of its own beyond the listings it returns.

## Findings

| source | as written | input that shows it | evidently intended | confidence | as-written member | corrected member |
|---|---|---|---|---|---|---|
| src/services/hoverMessageService.js:43 | the URL falls back to the default only when it is missing or empty, so a URL of only spaces is stored, while getHoverMessage's parseString (lines 12-17) turns it back into the default | `updateHoverMessage(msg, " ")` returns image URL " ", and the next `getHoverMessage` returns the default URL | a blank URL is stored as the default, as for the message, so a read after an update returns what the update returned | not executed | HoverMessage.AsWrittenRoundTripFails, HoverMessage.StoredImageUrlAsWritten | HoverMessage.UpdateThenGet, HoverMessage.UpdateHoverMessage |
