/** A session driven through the handlers' contracts alone: two students
    register in the same class, the first logs in (after a wrong password),
    marks present, tries to mark again, and the class report for the day is
    loaded. The form values are parameters, constrained only as a user
    filling the forms sensibly would. */
module Scenario {
  import opened Records
  import opened Strings
  import opened Accounts
  import opened Ledger
  import opened App

  /** A form value that is not blank and has no surrounding whitespace. */
  predicate Tidy(s: string) {
    s != [] && !IsWhitespace(s[0]) && !IsWhitespace(s[|s| - 1])
  }

  lemma ClassOfTwo(first: Student, second: Student, grade: string, room: string)
    requires first.grade == second.grade == grade && first.classroom == second.classroom == room
    ensures ClassStudents([first, second], grade, room) == [first, second]
  {
    assert [first, second][..1] == [first];
    assert ClassStudents([first], grade, room) == [first];
  }

  lemma MarksOfTheDay(r: AttendanceRecord, grade: string, room: string, day: string, otherId: int)
    requires r.grade == grade && r.classroom == room && r.date == day && otherId != r.studentId
    ensures LastMark([r], grade, room, day, r.studentId) == Some(r.status)
    ensures LastMark([r], grade, room, day, otherId) == None
  {
  }

  /** A student fills in the registration form with tidy values and a free
      username; exactly that student is appended. */
  method RegisterOne(app: ClassLink, s: Student)
    requires Tidy(s.name) && Tidy(s.username) && Tidy(s.classroom) && s.password != [] && s.grade != []
    requires !UsernameTaken(app.students, s.username)
    modifies app
    ensures app.students == old(app.students) + [s]
    ensures app.attendance == old(app.attendance) && app.currentUser == old(app.currentUser)
    ensures UniqueUsernames(old(app.students)) ==> UniqueUsernames(app.students)
  {
    TrimKeeps(s.name); TrimKeeps(s.username); TrimKeeps(s.classroom);
    var r := app.HandleStudentRegister(s.name, s.username, s.password, s.grade, s.classroom, s.id);
  }

  /** Both students fill in the registration form; both are accepted. */
  method RegisterBoth(s1: Student, s2: Student) returns (app: ClassLink)
    requires Tidy(s1.name) && Tidy(s1.username) && Tidy(s1.classroom) && s1.password != [] && s1.grade != []
    requires Tidy(s2.name) && Tidy(s2.username) && Tidy(s2.classroom) && s2.password != [] && s2.grade != []
    requires s1.username != s2.username
    ensures fresh(app)
    ensures app.students == [s1, s2] && UniqueUsernames(app.students)
    ensures app.attendance == [] && app.currentUser == None
  {
    app := new ClassLink([], [], [], None);
    RegisterOne(app, s1);
    assert app.students == [s1];
    RegisterOne(app, s2);
  }

  /** A wrong password is refused; the right one opens a session for `s`. */
  method LogInAfterTypo(app: ClassLink, s: Student, wrongPassword: string)
    returns (badLogin: LoginOutcome, goodLogin: LoginOutcome)
    requires UniqueUsernames(app.students) && |app.students| > 0 && app.students[0] == s
    requires wrongPassword != s.password
    modifies app
    ensures badLogin == InvalidCredentials && goodLogin == LoggedIn
    ensures app.currentUser == Some(Session(s, StudentRole))
    ensures app.students == old(app.students) && app.attendance == old(app.attendance)
  {
    badLogin := app.HandleStudentLogin(s.username, wrongPassword);
    goodLogin := app.HandleStudentLogin(s.username, s.password);
    UniqueLoginMatch(app.students, s.username, s.password, 0);
  }

  /** The first mark of the day is saved; a second one is refused. */
  method MarkTwice(app: ClassLink, s: Student, today: string, t1: string, t2: string)
    returns (first: MarkOutcome, second: MarkOutcome)
    requires app.currentUser == Some(Session(s, StudentRole)) && app.attendance == []
    modifies app
    ensures first == MarkSaved(AttendanceRecord(s.id, s.name, s.grade, s.classroom, today, Present, t1))
    ensures second == AlreadyMarked
    ensures app.attendance == [first.record]
    ensures app.students == old(app.students) && app.currentUser == old(app.currentUser)
  {
    first := app.MarkAttendance(Present, today, t1);
    second := app.MarkAttendance(Absent, today, t2);
    assert IsMarkFor(app.attendance[0], s.id, today);
  }

  /** The teacher's report for the day of the mark: both classmates, in
      registration order, the marked one with the saved status. */
  method ReportOfTheDay(app: ClassLink, s1: Student, s2: Student, mark: AttendanceRecord)
    returns (report: ReportOutcome)
    requires s1.grade != [] && s1.classroom != []
    requires s2.grade == s1.grade && s2.classroom == s1.classroom && s2.id != s1.id
    requires mark.studentId == s1.id && mark.grade == s1.grade && mark.classroom == s1.classroom
    requires app.students == [s1, s2] && app.attendance == [mark]
    ensures report == Report([ReportRow(s1, Recorded(mark.status)), ReportRow(s2, NotMarked)])
  {
    ClassOfTwo(s1, s2, s1.grade, s1.classroom);
    MarksOfTheDay(mark, s1.grade, s1.classroom, mark.date, s2.id);
    report := app.LoadClassAttendance(s1.grade, s1.classroom, mark.date);
    assert report.rows[0] == ReportRow(s1, Recorded(mark.status));
    assert report.rows[1] == ReportRow(s2, NotMarked);
  }

  /** Ids are `Date.now()` values and nothing keeps them apart. Should two
      classmates share one, a single mark shows for both of them in the
      class report. */
  method ReportWithSharedId(app: ClassLink, s1: Student, s2: Student, mark: AttendanceRecord)
    returns (report: ReportOutcome)
    requires s1.grade != [] && s1.classroom != []
    requires s2.grade == s1.grade && s2.classroom == s1.classroom && s2.id == s1.id
    requires mark.studentId == s1.id && mark.grade == s1.grade && mark.classroom == s1.classroom
    requires app.students == [s1, s2] && app.attendance == [mark]
    ensures report == Report([ReportRow(s1, Recorded(mark.status)), ReportRow(s2, Recorded(mark.status))])
  {
    ClassOfTwo(s1, s2, s1.grade, s1.classroom);
    MarksOfTheDay(mark, s1.grade, s1.classroom, mark.date, s1.id + 1);
    report := app.LoadClassAttendance(s1.grade, s1.classroom, mark.date);
    assert report.rows[0] == ReportRow(s1, Recorded(mark.status));
    assert report.rows[1] == ReportRow(s2, Recorded(mark.status));
  }

  /** The whole session: register two classmates, log the first in after a
      typo, mark present twice, and load the class report for the day. The
      report lists both students in registration order, the first as present
      and the second as not marked. */
  method TwoStudentsOneMark(s1: Student, s2: Student, wrongPassword: string,
                            today: string, t1: string, t2: string)
    returns (badLogin: LoginOutcome, goodLogin: LoginOutcome,
             first: MarkOutcome, second: MarkOutcome, report: ReportOutcome)
    requires Tidy(s1.name) && Tidy(s1.username) && Tidy(s1.classroom) && s1.password != [] && s1.grade != []
    requires Tidy(s2.name) && Tidy(s2.username) && s2.password != []
    requires s2.grade == s1.grade && s2.classroom == s1.classroom
    requires s1.username != s2.username && s1.id != s2.id && wrongPassword != s1.password
    ensures badLogin == InvalidCredentials && goodLogin == LoggedIn
    ensures first.MarkSaved? && first.record.status == Present && first.record.date == today
    ensures second == AlreadyMarked
    ensures report == Report([ReportRow(s1, Recorded(Present)), ReportRow(s2, NotMarked)])
  {
    var app := RegisterBoth(s1, s2);
    badLogin, goodLogin := LogInAfterTypo(app, s1, wrongPassword);
    first, second := MarkTwice(app, s1, today, t1, t2);
    report := ReportOfTheDay(app, s1, s2, first.record);
  }
}
