# ClassLink attendance core in Dafny

ClassLink is a browser app for school attendance. Students and teachers
register and log in. A logged-in student marks themself present or absent
once per day and sees their history. A teacher picks a grade and a classroom
and sees, for one date, which class members are marked. All of this lives in
`script.js`, which keeps three arrays and one session (`students`,
`teachers`, `attendance`, `currentUser`), mutates them in event handlers,
and writes each to `localStorage` after every change.

The model separates that logic from the DOM:

- `records.dfy` (`Records`): the stored records. An account is a student
  (grade, classroom) or a teacher (subject); `Student` and `Teacher` are the
  two subsets. Also the session (an account plus a role tag), the two
  attendance statuses, and the attendance record with its name, grade and
  classroom snapshot.
- `strings.dfy` (`Strings`): ECMAScript `trim`, the code-point
  lexicographic order behind the default `Array.prototype.sort`,
  `[...new Set(..)]`, and the sort itself.
- `dates.dfy` (`Dates`): for `YYYY-MM-DD` strings, string order is the
  chronological order of the days.
- `accounts.dfy` (`Accounts`): the `find` lookups for login and for
  duplicate usernames, and `getAvailableClassrooms`.
- `ledger.dfy` (`Ledger`): the queries over `attendance`. These are the
  today lookup that guards double marking, the student history sort, and the
  class report, including the `forEach` loop that builds `attendanceMap`.
- `app.dfy` (`App`): class `ClassLink`, whose four fields are the four
  globals, with one method per handler. Each method's `modifies` clause names
  exactly the globals the handler assigns or pushes to. Ghost `saved*` fields
  record what each `localStorage.setItem`/`removeItem` call leaves in
  storage. `Valid()` holds the invariants the handlers keep: unique usernames
  per collection, and at most one mark per student per day. `Persisted()`
  says storage agrees with memory.
- `scenario.dfy` (`Scenario`): one session driven through the handlers'
  contracts alone. Two classmates register, the first logs in after a
  wrong password, marks present, is refused a second mark, and the class
  report for the day shows the first as present and the second as not marked.

Form values, the current day (`new Date().toISOString().split('T')[0]`),
the current instant (`new Date().toISOString()`) and `Date.now()` ids are
parameters of the methods.

Three behaviours of `script.js` that the model keeps as written:
- Student registration trims only name, username and classroom. Password
  and grade are rejected only when empty, so a password of spaces is
  accepted.
- Ids come from `Date.now()` and are not guaranteed unique. No invariant or
  handler contract assumes they are; the scenario takes two distinct ids,
  and `Scenario.ReportWithSharedId` shows that with a shared id one mark
  shows for both classmates.
- The class report's map is keyed by the `studentId` of every record whose
  own grade, classroom and date match. When one student has several such
  records, the last one in array order wins.

## Model

| member | source | states |
|---|---|---|
| Strings.TrimStartSuffix | ClassLink/ClassLink-App-Updated/script.js:177-181 | the start-trimmed string is a suffix of the input, everything dropped is whitespace, and it does not start with whitespace |
| Strings.TrimEndPrefix | ClassLink/ClassLink-App-Updated/script.js:177-181 | the end-trimmed string is a prefix of the input, everything dropped is whitespace, and it does not end with whitespace |
| Strings.TrimIsSlice | ClassLink/ClassLink-App-Updated/script.js:177-181 | `trim` (modelled by `Strings.Trim`) returns the slice of the input between its leading and trailing whitespace, with no whitespace left at either end |
| Strings.TrimKeeps | ClassLink/ClassLink-App-Updated/script.js:177-181 | a value with no whitespace at either end is stored exactly as typed |
| Strings.TrimEmptyIff | ClassLink/ClassLink-App-Updated/script.js:177-186 | a trimmed field is rejected as blank exactly when it consists only of whitespace |
| Strings.TrimIdempotent | ClassLink/ClassLink-App-Updated/script.js:177-181 | trimming a trimmed value changes nothing |
| Strings.LtIff | ClassLink/ClassLink-App-Updated/script.js:55 | `Strings.Lt`, the string `<` that the default sort compares with, is the textbook lexicographic order: a proper prefix, or a smaller character at the first difference |
| Strings.LtIrreflexive | ClassLink/ClassLink-App-Updated/script.js:55 | no string sorts before itself |
| Strings.LtTransitive | ClassLink/ClassLink-App-Updated/script.js:55 | the string order is transitive |
| Strings.LtTotal | ClassLink/ClassLink-App-Updated/script.js:55 | of two different strings exactly one sorts first |
| Strings.Dedup | ClassLink/ClassLink-App-Updated/script.js:54 | `[...new Set(s)]` has no duplicates and exactly the members of `s` |
| Strings.Insert | ClassLink/ClassLink-App-Updated/script.js:55 | inserting adds exactly one occurrence of the value (multiset) |
| Strings.SortStrings | ClassLink/ClassLink-App-Updated/script.js:55 | the default sort returns a permutation of its input |
| Strings.InsertAscending | ClassLink/ClassLink-App-Updated/script.js:55 | inserting into an ascending list keeps it ascending |
| Strings.SortStringsAscending | ClassLink/ClassLink-App-Updated/script.js:55 | the default sort returns an ascending sequence |
| Strings.PermutationNoDuplicates | ClassLink/ClassLink-App-Updated/script.js:54-55 | sorting a duplicate-free list leaves it duplicate-free |
| Strings.AscendingDistinctIsStrict | ClassLink/ClassLink-App-Updated/script.js:54-55 | an ascending duplicate-free list is strictly ascending |
| Dates.DigitsLtIff | ClassLink/ClassLink-App-Updated/script.js:344 | for digit strings of equal length, string order is numeric order |
| Dates.IsoDateFields | ClassLink/ClassLink-App-Updated/script.js:344 | string order on `YYYY-MM-DD` compares year, then month, then day digits |
| Dates.IsoDateOrder | ClassLink/ClassLink-App-Updated/script.js:344 | for well-formed dates, string order is exactly chronological order of the days (year, month, day), so comparing date strings orders records as `new Date(b.date) - new Date(a.date)` does |
| Accounts.FindLogin | ClassLink/ClassLink-App-Updated/script.js:164 | the lookup is empty exactly when no account has both the username and the password; otherwise it is the first such account |
| Accounts.FoundLoginHasCredentials | ClassLink/ClassLink-App-Updated/script.js:164-167 | a found account is in the collection and carries the typed username and password |
| Accounts.UniqueLoginMatch | ClassLink/ClassLink-App-Updated/script.js:164-167 | with unique usernames, the login finds the one matching account whatever its position |
| Accounts.UsernameTaken | ClassLink/ClassLink-App-Updated/script.js:190 | true exactly when some account in the collection has the username |
| Accounts.AppendFreeUsername | ClassLink/ClassLink-App-Updated/script.js:189-204 | appending an account with a free username keeps usernames unique |
| Accounts.ClassroomsOfGrade | ClassLink/ClassLink-App-Updated/script.js:53-54 | the mapped list holds exactly the classrooms of students in the grade |
| Accounts.AvailableClassrooms | ClassLink/ClassLink-App-Updated/script.js:52-56 | strictly ascending (hence duplicate-free) and holding exactly the classroom labels of the students in the grade |
| Ledger.FindMark | ClassLink/ClassLink-App-Updated/script.js:291-293 | empty exactly when the student has no record for the date; otherwise the first such record, which is in the ledger |
| Ledger.AppendUnmarked | ClassLink/ClassLink-App-Updated/script.js:312-331 | appending a mark for an unmarked (student, day) keeps at most one mark per student per day, and the lookup then finds the new mark |
| Ledger.FoundMarkIsOnly | ClassLink/ClassLink-App-Updated/script.js:291-293 | under the ledger invariant the lookup returns the student's unique mark for that day |
| Ledger.ForStudent | ClassLink/ClassLink-App-Updated/script.js:342-343 | the filter keeps every record of the student with its multiplicity and nothing else |
| Ledger.ForStudentAppend | ClassLink/ClassLink-App-Updated/script.js:342-343 | the filter keeps array order: filtering a concatenation concatenates the filtered parts |
| Ledger.InsertByDate | ClassLink/ClassLink-App-Updated/script.js:344 | inserting adds exactly one record (multiset) |
| Ledger.SortByDateDesc | ClassLink/ClassLink-App-Updated/script.js:344 | the history sort returns a permutation of its input |
| Ledger.InsertByDateNewestFirst | ClassLink/ClassLink-App-Updated/script.js:344 | inserting into a newest-first list keeps it newest-first |
| Ledger.SortByDateDescNewestFirst | ClassLink/ClassLink-App-Updated/script.js:344 | the sorted history has non-increasing dates |
| Ledger.InsertByDateStable | ClassLink/ClassLink-App-Updated/script.js:344 | insertion keeps the order of the records of each day, with the inserted record first among those of its date |
| Ledger.SortByDateDescStable | ClassLink/ClassLink-App-Updated/script.js:344 | the sort is stable: the records of each day keep their order |
| Ledger.History | ClassLink/ClassLink-App-Updated/script.js:342-344 | the history is a permutation of the student's records, newest day first, with same-day records in ledger order |
| Ledger.DayAttendance | ClassLink/ClassLink-App-Updated/script.js:420-422 | the filter keeps exactly the records of the class on the date, with multiplicity |
| Ledger.ClassStudents | ClassLink/ClassLink-App-Updated/script.js:417 | the filter keeps exactly the students of the grade and classroom, with multiplicity |
| Ledger.ClassStudentsAppend | ClassLink/ClassLink-App-Updated/script.js:417 | the filter keeps registration order: filtering a concatenation concatenates the filtered parts |
| Ledger.LastStatus | ClassLink/ClassLink-App-Updated/script.js:426-428 | no entry exactly when the student has no record in the day's list; otherwise the status of that student's last record |
| Ledger.BuildAttendanceMap | ClassLink/ClassLink-App-Updated/script.js:425-428 | the loop's map has exactly the day's student ids as keys, and each key holds the status of that student's last record |
| Ledger.LastMark | ClassLink/ClassLink-App-Updated/script.js:420-428 | no mark exactly when the student has no record in the class on the date; otherwise the status of the last such record in the ledger |
| Ledger.ReportLooksUpLastMark | ClassLink/ClassLink-App-Updated/script.js:420-438 | looking a student up in the map built from the day's records gives that student's last matching record in the whole ledger |
| Ledger.ReportShowsTheMark | ClassLink/ClassLink-App-Updated/script.js:420-438 | under the ledger invariant, the report shows each student's unique mark for the day |
| App.ClassLink.constructor | ClassLink/ClassLink-App-Updated/script.js:2-5 | the state starts as the four loaded values, and storage agrees with memory |
| App.ClassLink.HandleStudentLogin | ClassLink/ClassLink-App-Updated/script.js:159-173 | succeeds iff some student has exactly that username and password; on success the session is the first such student with the student role and is saved; on failure nothing changes |
| App.ClassLink.HandleTeacherLogin | ClassLink/ClassLink-App-Updated/script.js:211-225 | the same over teachers, with the teacher role |
| App.ClassLink.HandleStudentRegister | ClassLink/ClassLink-App-Updated/script.js:175-209 | rejected as missing exactly when a trimmed name, username or classroom, or the password or grade, is empty; otherwise rejected as duplicate exactly when the trimmed username is taken; otherwise exactly one student with the trimmed values is appended and saved; a rejection changes nothing; username uniqueness and the invariants are kept |
| App.ClassLink.HandleTeacherRegister | ClassLink/ClassLink-App-Updated/script.js:227-253 | never rejected as missing; rejected exactly when the untrimmed username is taken, changing nothing; otherwise exactly one teacher with the values as typed is appended and saved; uniqueness and the invariants are kept |
| App.ClassLink.Logout | ClassLink/ClassLink-App-Updated/script.js:473-476 | the session is cleared in memory and in storage |
| App.ClassLink.CheckTodayAttendance | ClassLink/ClassLink-App-Updated/script.js:289-293 | the result is a ledger record of the session's id for today, and is empty exactly when there is none |
| App.ClassLink.MarkAttendance | ClassLink/ClassLink-App-Updated/script.js:308-332 | refused exactly when the student already has a mark for today, changing nothing; otherwise exactly one record is appended and saved, copying the id, name, grade and classroom from the session, and today's lookup then returns that record; at most one mark per student per day is kept; afterwards today's lookup finds a mark |
| App.ClassLink.StudentHistory | ClassLink/ClassLink-App-Updated/script.js:341-344 | the history is a permutation of the session student's ledger records (same multiset), newest day first, with each day's records in ledger order |
| App.ClassLink.GetAvailableClassrooms | ClassLink/ClassLink-App-Updated/script.js:52-56 | strictly ascending, and exactly the classroom labels of the registered students in the grade |
| App.ClassLink.LoadClassAttendance | ClassLink/ClassLink-App-Updated/script.js:406-438 | nothing is shown exactly when grade or classroom is empty; otherwise one row per student of the class, in filter order, showing the status of that student's last record in the class on the date, or not-marked (`Ledger.ShownStatus`, the `'not-marked'` fallback); under `Valid()` a student's row shows that student's mark for the day |
| Scenario.RegisterOne | ClassLink/ClassLink-App-Updated/script.js:175-209 | tidy form values with a free username append exactly that student |
| Scenario.RegisterBoth | ClassLink/ClassLink-App-Updated/script.js:175-209 | from empty storage, two tidy registrations with different usernames leave exactly those two students, in order, with unique usernames |
| Scenario.LogInAfterTypo | ClassLink/ClassLink-App-Updated/script.js:159-173 | a wrong password is refused and the right one logs the student in |
| Scenario.MarkTwice | ClassLink/ClassLink-App-Updated/script.js:308-332 | the first mark of the day is saved and a second one, with another status, is refused |
| Scenario.ReportOfTheDay | ClassLink/ClassLink-App-Updated/script.js:406-438 | after one student's mark, the class report shows that student's status and the classmate as not marked |
| Scenario.ReportWithSharedId | ClassLink/ClassLink-App-Updated/script.js:406-438 | two classmates with the same id both show the one saved mark in the report |
| Scenario.TwoStudentsOneMark | ClassLink/ClassLink-App-Updated/script.js:159-438 | the whole register, login, mark, mark-again, report session has the outcomes described above |

## Left out

- DOM reads, rendering, section show/hide, HTML building and status texts
  (`script.js:113-156`, `256-286`, `346-366`, `431-469`) are presentation.
  The report is modelled as the rows it would render.
- The custom alert modal, its timers and the keyboard and click listeners
  (`script.js:8-49`, `79-110`) are UI only.
- Start-up view routing (`script.js:59-77`) only chooses a screen from the
  session role.
- `updateTeacherClassrooms` and `enableLoadButton` (`script.js:370-404`)
  are UI wiring around `getAvailableClassrooms` and the empty checks of
  `loadClassAttendance`.
- `localStorage` and JSON are not modelled as such. The constructor takes
  the four values already read back, and each write becomes an assignment to
  a ghost `saved*` field. A corrupt stored value, on which `JSON.parse` would
  throw, is not modelled.
- `Date.now()`, `new Date()` and `toISOString` are parameters. The
  locale-formatted history date (`toLocaleDateString`) is display only.
- App.ClassLink.MarkAttendance: requires a student session. Its only callers
  are the student dashboard buttons. With no session the code throws, and a
  teacher session is not reachable from there.
- App.ClassLink.CheckTodayAttendance: requires a session, because without
  one the code throws.
- App.ClassLink.StudentHistory: requires a session, because without one the
  code throws.
- Statuses are the two values the buttons pass. Other strings in `status`
  are not modelled.
- The sort orders strings by Unicode code point. JavaScript compares UTF-16
  code units, and the two orders differ only for characters outside the
  Basic Multilingual Plane.
- Dates are compared as strings in the history sort. `Dates.IsoDateOrder`
  shows this agrees with comparing `new Date(..)` values for `YYYY-MM-DD`
  dates, the only form the app stores. Malformed dates, which would give
  `NaN`, are not modelled.
- `attendanceMap` keys are the numeric ids. JavaScript turns them into
  property-name strings, which is injective on the ids the app produces.
- The object spread `{ ...student, role }` is modelled as a session holding
  the account and a role tag.
