/** The app's global state and its event handlers. The four globals become
    fields of one object; each handler becomes a method whose frame names
    exactly the globals the handler assigns or pushes to. Form values, the
    current day, the current instant and `Date.now()` ids are parameters.
    Each `localStorage.setItem` / `removeItem` is modelled by assigning the
    matching ghost `saved` field. */
module App {
  import opened Records
  import opened Strings
  import opened Accounts
  import opened Ledger

  datatype RegisterOutcome = Registered | MissingFields | UsernameExists

  datatype LoginOutcome = LoggedIn | InvalidCredentials

  datatype MarkOutcome = MarkSaved(record: AttendanceRecord) | AlreadyMarked

  datatype ReportRow = ReportRow(student: Student, status: ClassStatus)

  datatype ReportOutcome = SelectionMissing | Report(rows: seq<ReportRow>)

  class ClassLink {
    var students: seq<Student>
    var teachers: seq<Teacher>
    var attendance: seq<AttendanceRecord>
    var currentUser: Option<Session>

    /** What the last write left under each storage key. */
    ghost var savedStudents: seq<Student>
    ghost var savedTeachers: seq<Teacher>
    ghost var savedAttendance: seq<AttendanceRecord>
    ghost var savedCurrentUser: Option<Session>

    /** The invariants the handlers keep. */
    ghost predicate Valid()
      reads this
    {
      UniqueUsernames(students) && UniqueUsernames(teachers) && AtMostOnePerDay(attendance)
    }

    /** Storage agrees with memory. */
    ghost predicate Persisted()
      reads this
    {
      && savedStudents == students && savedTeachers == teachers
      && savedAttendance == attendance && savedCurrentUser == currentUser
    }

    /** Start-up: the four values read back from storage (an absent key
        already replaced by an empty collection or no session). */
    constructor (students: seq<Student>, teachers: seq<Teacher>,
                 attendance: seq<AttendanceRecord>, currentUser: Option<Session>)
      ensures this.students == students && this.teachers == teachers
      ensures this.attendance == attendance && this.currentUser == currentUser
      ensures Persisted()
    {
      this.students, this.teachers := students, teachers;
      this.attendance, this.currentUser := attendance, currentUser;
      savedStudents, savedTeachers := students, teachers;
      savedAttendance, savedCurrentUser := attendance, currentUser;
    }

    /** `handleStudentLogin`: on an exact username and password match the
        session becomes the first matching student with the student role;
        otherwise nothing changes. */
    method HandleStudentLogin(username: string, password: string) returns (outcome: LoginOutcome)
      modifies this`currentUser, this`savedCurrentUser
      ensures old(Valid()) ==> Valid()
      ensures old(Persisted()) ==> Persisted()
      ensures outcome == LoggedIn <==> exists i :: 0 <= i < |students| && HasCredentials(students[i], username, password)
      ensures outcome == LoggedIn ==>
                && currentUser == Some(Session(FindLogin(students, username, password).value, StudentRole))
                && savedCurrentUser == currentUser
      ensures outcome == InvalidCredentials ==>
                currentUser == old(currentUser) && savedCurrentUser == old(savedCurrentUser)
    {
      var found := FindLogin(students, username, password);
      if found.Some? {
        currentUser := Some(Session(found.value, StudentRole));
        savedCurrentUser := currentUser;
        outcome := LoggedIn;
      } else {
        outcome := InvalidCredentials;
      }
    }

    /** `handleTeacherLogin`: the same lookup in `teachers`, tagging the
        session with the teacher role. */
    method HandleTeacherLogin(username: string, password: string) returns (outcome: LoginOutcome)
      modifies this`currentUser, this`savedCurrentUser
      ensures old(Valid()) ==> Valid()
      ensures old(Persisted()) ==> Persisted()
      ensures outcome == LoggedIn <==> exists i :: 0 <= i < |teachers| && HasCredentials(teachers[i], username, password)
      ensures outcome == LoggedIn ==>
                && currentUser == Some(Session(FindLogin(teachers, username, password).value, TeacherRole))
                && savedCurrentUser == currentUser
      ensures outcome == InvalidCredentials ==>
                currentUser == old(currentUser) && savedCurrentUser == old(savedCurrentUser)
    {
      var found := FindLogin(teachers, username, password);
      if found.Some? {
        currentUser := Some(Session(found.value, TeacherRole));
        savedCurrentUser := currentUser;
        outcome := LoggedIn;
      } else {
        outcome := InvalidCredentials;
      }
    }

    /** `handleStudentRegister`: name, username and classroom are trimmed,
        password and grade are taken as they are; any of the five empty
        rejects, then a username already among the students rejects;
        otherwise exactly one student is appended. The session is not
        touched (no auto-login). */
    method HandleStudentRegister(name: string, username: string, password: string,
                                 grade: string, classroom: string, id: int)
      returns (outcome: RegisterOutcome)
      modifies this`students, this`savedStudents
      ensures old(Valid()) ==> Valid()
      ensures old(Persisted()) ==> Persisted()
      ensures var n, u, c := Trim(name), Trim(username), Trim(classroom);
              && (outcome == MissingFields <==> n == [] || u == [] || password == [] || grade == [] || c == [])
              && (outcome == UsernameExists <==> outcome != MissingFields && UsernameTaken(old(students), u))
              && (outcome == Registered ==>
                    && students == old(students) + [StudentAccount(id, n, u, password, grade, c)]
                    && savedStudents == students)
              && (outcome != Registered ==> students == old(students) && savedStudents == old(savedStudents))
      ensures UniqueUsernames(old(students)) ==> UniqueUsernames(students)
    {
      var n, u, c := Trim(name), Trim(username), Trim(classroom);
      if n == [] || u == [] || password == [] || grade == [] || c == [] {
        return MissingFields;
      }
      if UsernameTaken(students, u) {
        return UsernameExists;
      }
      var s := StudentAccount(id, n, u, password, grade, c);
      if UniqueUsernames(students) { AppendFreeUsername(students, s); }
      students := students + [s];
      savedStudents := students;
      outcome := Registered;
    }

    /** `handleTeacherRegister`: no trimming and no blank check; only a
        username already among the teachers rejects. */
    method HandleTeacherRegister(name: string, username: string, password: string,
                                 subject: string, id: int)
      returns (outcome: RegisterOutcome)
      modifies this`teachers, this`savedTeachers
      ensures old(Valid()) ==> Valid()
      ensures old(Persisted()) ==> Persisted()
      ensures outcome != MissingFields
      ensures outcome == UsernameExists <==> UsernameTaken(old(teachers), username)
      ensures outcome == Registered ==>
                && teachers == old(teachers) + [TeacherAccount(id, name, username, password, subject)]
                && savedTeachers == teachers
      ensures outcome == UsernameExists ==> teachers == old(teachers) && savedTeachers == old(savedTeachers)
      ensures UniqueUsernames(old(teachers)) ==> UniqueUsernames(teachers)
    {
      if UsernameTaken(teachers, username) {
        return UsernameExists;
      }
      var t := TeacherAccount(id, name, username, password, subject);
      if UniqueUsernames(teachers) { AppendFreeUsername(teachers, t); }
      teachers := teachers + [t];
      savedTeachers := teachers;
      outcome := Registered;
    }

    /** `logout`: the session is cleared in memory and in storage. */
    method Logout()
      modifies this`currentUser, this`savedCurrentUser
      ensures old(Valid()) ==> Valid()
      ensures old(Persisted()) ==> Persisted()
      ensures currentUser == None && savedCurrentUser == None
    {
      currentUser := None;
      savedCurrentUser := None;
    }

    /** `checkTodayAttendance`: the logged-in user's mark for `today`, if any. */
    function CheckTodayAttendance(today: string): (r: Option<AttendanceRecord>)
      reads this
      requires currentUser.Some?
      ensures r.Some? ==> r.value in attendance && IsMarkFor(r.value, currentUser.value.account.id, today)
      ensures r.None? <==> forall k :: 0 <= k < |attendance| ==>
                             !IsMarkFor(attendance[k], currentUser.value.account.id, today)
    {
      FindMark(attendance, currentUser.value.account.id, today)
    }

    /** `markAttendance(status)`: if the logged-in student already has a mark
        for `today` nothing changes; otherwise one record is appended whose
        name, grade and classroom are copied from the session. The ledger
        invariant is kept either way. */
    method MarkAttendance(status: Status, today: string, timestamp: string) returns (outcome: MarkOutcome)
      requires currentUser.Some? && currentUser.value.account.StudentAccount?
      modifies this`attendance, this`savedAttendance
      ensures old(Valid()) ==> Valid()
      ensures old(Persisted()) ==> Persisted()
      ensures var me := currentUser.value.account;
              && (outcome == AlreadyMarked <==>
                    exists k :: 0 <= k < |old(attendance)| && IsMarkFor(old(attendance)[k], me.id, today))
              && (outcome == AlreadyMarked ==>
                    attendance == old(attendance) && savedAttendance == old(savedAttendance))
              && (outcome.MarkSaved? ==>
                    && outcome.record == AttendanceRecord(me.id, me.name, me.grade, me.classroom,
                                                           today, status, timestamp)
                    && attendance == old(attendance) + [outcome.record]
                    && savedAttendance == attendance)
      ensures AtMostOnePerDay(old(attendance)) ==> AtMostOnePerDay(attendance)
      ensures CheckTodayAttendance(today).Some?
      ensures outcome.MarkSaved? ==> CheckTodayAttendance(today) == Some(outcome.record)
    {
      var me := currentUser.value.account;
      var existing := FindMark(attendance, me.id, today);
      if existing.Some? {
        return AlreadyMarked;
      }
      var r := AttendanceRecord(me.id, me.name, me.grade, me.classroom, today, status, timestamp);
      if AtMostOnePerDay(attendance) { AppendUnmarked(attendance, r); }
      attendance := attendance + [r];
      savedAttendance := attendance;
      outcome := MarkSaved(r);
      assert IsMarkFor(attendance[|attendance| - 1], me.id, today);
    }

    /** `loadStudentHistory`: the logged-in user's records, newest day first. */
    function StudentHistory(): (h: seq<AttendanceRecord>)
      reads this
      requires currentUser.Some?
      ensures forall k :: 0 <= k < |h| ==> h[k] in attendance && h[k].studentId == currentUser.value.account.id
      ensures forall r :: r in attendance && r.studentId == currentUser.value.account.id ==> r in h
      ensures NewestFirst(h)
      ensures multiset(h) == multiset(ForStudent(attendance, currentUser.value.account.id))
      ensures forall d :: OnDate(h, d) == OnDate(ForStudent(attendance, currentUser.value.account.id), d)
    {
      var h := History(attendance, currentUser.value.account.id);
      assert forall r :: r in h <==> r in multiset(h);
      assert forall r :: r in attendance <==> r in multiset(attendance);
      h
    }

    /** `getAvailableClassrooms(grade)` over the registered students. */
    function GetAvailableClassrooms(grade: string): (r: seq<string>)
      reads this
      ensures StrictlyAscending(r)
      ensures forall c :: c in r <==> exists s :: s in students && s.grade == grade && s.classroom == c
    {
      AvailableClassrooms(students, grade)
    }

    /** `loadClassAttendance`: nothing without a grade and a classroom;
        otherwise one row per student of the class, in registration order,
        showing the status of the last mark of that student in the class on
        `date`, or not-marked. */
    method LoadClassAttendance(grade: string, classroom: string, date: string) returns (outcome: ReportOutcome)
      ensures outcome == SelectionMissing <==> grade == [] || classroom == []
      ensures outcome.Report? ==>
                var cls := ClassStudents(students, grade, classroom);
                && |outcome.rows| == |cls|
                && forall i :: 0 <= i < |cls| ==>
                     outcome.rows[i] == ReportRow(cls[i], ShownStatus(LastMark(attendance, grade, classroom, date, cls[i].id)))
      ensures Valid() && outcome.Report? ==>
                var cls := ClassStudents(students, grade, classroom);
                forall i, k :: 0 <= i < |cls| && 0 <= k < |attendance| &&
                               InClassOnDay(attendance[k], grade, classroom, date) && attendance[k].studentId == cls[i].id
                               ==> outcome.rows[i].status == Recorded(attendance[k].status)
    {
      if grade == [] || classroom == [] {
        return SelectionMissing;
      }
      var cls := ClassStudents(students, grade, classroom);
      var day := DayAttendance(attendance, grade, classroom, date);
      var m := BuildAttendanceMap(day);
      var rows := seq(|cls|, i requires 0 <= i < |cls| =>
                        ReportRow(cls[i], if cls[i].id in m then Recorded(m[cls[i].id]) else NotMarked));
      forall i | 0 <= i < |cls|
        ensures rows[i] == ReportRow(cls[i], ShownStatus(LastMark(attendance, grade, classroom, date, cls[i].id)))
      {
        ReportLooksUpLastMark(attendance, grade, classroom, date, cls[i].id);
        assert LastStatus(day, cls[i].id) == if cls[i].id in m then Some(m[cls[i].id]) else None;
      }
      outcome := Report(rows);
      if Valid() {
        forall i, k | 0 <= i < |cls| && 0 <= k < |attendance| &&
                      InClassOnDay(attendance[k], grade, classroom, date) && attendance[k].studentId == cls[i].id
          ensures rows[i].status == Recorded(attendance[k].status)
        {
          ReportShowsTheMark(attendance, grade, classroom, date, k);
        }
      }
    }
  }
}
