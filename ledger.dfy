/** The attendance ledger's queries over the `attendance` collection: the
    today lookup that guards double marking, a student's history, and the
    per-class report for one day. */
module Ledger {
  import opened Records
  import opened Strings

  // ---------------------------------------------------------------------
  // One mark per student per day

  predicate IsMarkFor(r: AttendanceRecord, id: int, date: string) {
    r.studentId == id && r.date == date
  }

  /** Index `i` holds the first mark of student `id` on `date`. */
  predicate IsFirstMark(att: seq<AttendanceRecord>, i: int, id: int, date: string) {
    && 0 <= i < |att|
    && IsMarkFor(att[i], id, date)
    && forall j :: 0 <= j < i ==> !IsMarkFor(att[j], id, date)
  }

  /** `attendance.find(a => a.studentId === id && a.date === date)`. */
  function FindMark(att: seq<AttendanceRecord>, id: int, date: string): (r: Option<AttendanceRecord>)
    ensures r.None? <==> forall j :: 0 <= j < |att| ==> !IsMarkFor(att[j], id, date)
    ensures r.Some? ==> exists i :: IsFirstMark(att, i, id, date) && att[i] == r.value
    ensures r.Some? ==> r.value in att && IsMarkFor(r.value, id, date)
  {
    if att == [] then None
    else if IsMarkFor(att[0], id, date) then
      assert IsFirstMark(att, 0, id, date);
      Some(att[0])
    else
      var r := FindMark(att[1..], id, date);
      assert forall j :: 1 <= j < |att| ==> att[j] == att[1..][j - 1];
      if r.Some? then
        var i :| IsFirstMark(att[1..], i, id, date) && att[1..][i] == r.value;
        assert IsFirstMark(att, i + 1, id, date);
        r
      else
        r
  }

  /** The ledger invariant: no student has two marks for the same day. */
  predicate AtMostOnePerDay(att: seq<AttendanceRecord>) {
    forall i, j :: 0 <= i < j < |att| ==>
      !(att[i].studentId == att[j].studentId && att[i].date == att[j].date)
  }

  /** Appending a mark for a (student, day) pair that has none keeps the
      invariant, and the lookup then finds exactly the new mark. */
  lemma AppendUnmarked(att: seq<AttendanceRecord>, r: AttendanceRecord)
    requires AtMostOnePerDay(att) && FindMark(att, r.studentId, r.date).None?
    ensures AtMostOnePerDay(att + [r])
    ensures FindMark(att + [r], r.studentId, r.date) == Some(r)
  {
    var att' := att + [r];
    assert forall j :: 0 <= j < |att| ==> att'[j] == att[j];
    assert IsMarkFor(att'[|att|], r.studentId, r.date);
    var found := FindMark(att', r.studentId, r.date);
    var i :| IsFirstMark(att', i, r.studentId, r.date) && att'[i] == found.value;
    assert i == |att|;
  }

  /** Under the invariant a day's mark is the only one, so the first match
      the lookup returns is every match. */
  lemma FoundMarkIsOnly(att: seq<AttendanceRecord>, id: int, date: string, k: int)
    requires AtMostOnePerDay(att)
    requires 0 <= k < |att| && IsMarkFor(att[k], id, date)
    ensures FindMark(att, id, date) == Some(att[k])
  {
    var r := FindMark(att, id, date);
    assert r.Some?;
    var i :| IsFirstMark(att, i, id, date) && att[i] == r.value;
    assert att[i].studentId == att[k].studentId && att[i].date == att[k].date;
    assert i == k;
  }

  // ---------------------------------------------------------------------
  // Student history

  /** `attendance.filter(a => a.studentId === id)`, counted with multiplicity. */
  function ForStudent(att: seq<AttendanceRecord>, id: int): (r: seq<AttendanceRecord>)
    ensures forall x :: multiset(r)[x] == if x.studentId == id then multiset(att)[x] else 0
  {
    if att == [] then []
    else
      var last := att[|att| - 1];
      assert att == att[..|att| - 1] + [last];
      ForStudent(att[..|att| - 1], id) + if last.studentId == id then [last] else []
  }

  /** The filter keeps order: filtering a concatenation filters each part. */
  lemma {:induction false} ForStudentAppend(a: seq<AttendanceRecord>, b: seq<AttendanceRecord>, id: int)
    ensures ForStudent(a + b, id) == ForStudent(a, id) + ForStudent(b, id)
  {
    if b == [] {
      assert a + b == a;
    } else {
      var init, last := b[..|b| - 1], b[|b| - 1];
      var z := if last.studentId == id then [last] else [];
      assert b == init + [last];
      assert a + b == (a + init) + [last];
      ForStudentSnoc(init, last, id);
      ForStudentSnoc(a + init, last, id);
      ForStudentAppend(a, init, id);
      ConcatAssoc(ForStudent(a, id), ForStudent(init, id), z);
    }
  }

  lemma ForStudentSnoc(a: seq<AttendanceRecord>, last: AttendanceRecord, id: int)
    ensures ForStudent(a + [last], id) == ForStudent(a, id) + if last.studentId == id then [last] else []
  {
    assert (a + [last])[..|a|] == a;
  }

  /** Concatenation regrouped, as a separate fact so that the append lemmas
      above need not rediscover it among their other sequence terms. */
  lemma ConcatAssoc<T>(a: seq<T>, b: seq<T>, c: seq<T>)
    ensures (a + b) + c == a + (b + c)
  {
  }

  /** The records of `s` dated `d`, in their order in `s`. */
  function OnDate(s: seq<AttendanceRecord>, d: string): seq<AttendanceRecord> {
    if s == [] then []
    else (if s[0].date == d then [s[0]] else []) + OnDate(s[1..], d)
  }

  /** Inserts `x` before the first record dated on or before it. */
  function InsertByDate(x: AttendanceRecord, s: seq<AttendanceRecord>): (r: seq<AttendanceRecord>)
    ensures multiset(r) == multiset(s) + multiset{x}
  {
    if s == [] || Le(s[0].date, x.date) then [x] + s
    else
      assert s == [s[0]] + s[1..];
      [s[0]] + InsertByDate(x, s[1..])
  }

  /** The history sort, newest day first: an insertion sort standing for the
      stable `Array.prototype.sort` with comparator `new Date(b.date) -
      new Date(a.date)`. */
  function SortByDateDesc(s: seq<AttendanceRecord>): (r: seq<AttendanceRecord>)
    ensures multiset(r) == multiset(s)
  {
    if s == [] then []
    else
      assert s == [s[0]] + s[1..];
      InsertByDate(s[0], SortByDateDesc(s[1..]))
  }

  predicate NewestFirst(s: seq<AttendanceRecord>) {
    forall i, j :: 0 <= i < j < |s| ==> Le(s[j].date, s[i].date)
  }

  lemma LeTransitive(a: string, b: string, c: string)
    requires Le(a, b) && Le(b, c)
    ensures Le(a, c)
  {
    if a != b && b != c { LtTransitive(a, b, c); }
  }

  lemma {:induction false} InsertByDateNewestFirst(x: AttendanceRecord, s: seq<AttendanceRecord>)
    requires NewestFirst(s)
    ensures NewestFirst(InsertByDate(x, s))
  {
    if s == [] || Le(s[0].date, x.date) {
      forall j | 0 <= j < |s| ensures Le(s[j].date, x.date) {
        if j > 0 { LeTransitive(s[j].date, s[0].date, x.date); }
      }
      assert forall j :: 0 < j <= |s| ==> ([x] + s)[j] == s[j - 1];
    } else {
      LtTotal(s[0].date, x.date);
      InsertByDateNewestFirst(x, s[1..]);
      var t := InsertByDate(x, s[1..]);
      forall j | 0 <= j < |t| ensures Le(t[j].date, s[0].date) {
        assert t[j] in multiset(t);
        if t[j] != x { assert t[j] in s[1..]; }
      }
    }
  }

  lemma {:induction false} SortByDateDescNewestFirst(s: seq<AttendanceRecord>)
    ensures NewestFirst(SortByDateDesc(s))
  {
    if s != [] {
      SortByDateDescNewestFirst(s[1..]);
      InsertByDateNewestFirst(s[0], SortByDateDesc(s[1..]));
    }
  }

  /** Insertion leaves the records of every day in their relative order, with
      `x` ahead of the records that share its date. */
  lemma {:induction false} InsertByDateStable(x: AttendanceRecord, s: seq<AttendanceRecord>, d: string)
    ensures OnDate(InsertByDate(x, s), d) == (if x.date == d then [x] else []) + OnDate(s, d)
  {
    var mark := if x.date == d then [x] else [];
    if s == [] || Le(s[0].date, x.date) {
      OnDateCons(x, s, d);
    } else {
      var head := if s[0].date == d then [s[0]] else [];
      var rest := OnDate(s[1..], d);
      assert OnDate(InsertByDate(x, s), d) == head + (mark + rest) by {
        InsertByDateStable(x, s[1..], d);
        OnDateCons(s[0], InsertByDate(x, s[1..]), d);
      }
      assert OnDate(s, d) == head + rest by {
        assert s == [s[0]] + s[1..];
        OnDateCons(s[0], s[1..], d);
      }
      // `s[0]` is strictly newer than `x`, so at most one of them is on `d`.
      if mark == [] {
        assert mark + rest == rest && mark + (head + rest) == head + rest;
      } else {
        assert head == [];
        assert head + (mark + rest) == mark + rest && head + rest == rest;
      }
    }
  }

  lemma OnDateCons(a: AttendanceRecord, s: seq<AttendanceRecord>, d: string)
    ensures OnDate([a] + s, d) == (if a.date == d then [a] else []) + OnDate(s, d)
  {
    assert ([a] + s)[1..] == s;
  }

  /** The sort is stable: records of one day keep their insertion order. */
  lemma {:induction false} SortByDateDescStable(s: seq<AttendanceRecord>, d: string)
    ensures OnDate(SortByDateDesc(s), d) == OnDate(s, d)
  {
    if s != [] {
      SortByDateDescStable(s[1..], d);
      InsertByDateStable(s[0], SortByDateDesc(s[1..]), d);
    }
  }

  /** `loadStudentHistory`'s list: exactly the student's records, newest day
      first, records of one day in insertion order. */
  function History(att: seq<AttendanceRecord>, id: int): (h: seq<AttendanceRecord>)
    ensures forall k :: 0 <= k < |h| ==> h[k].studentId == id
    ensures multiset(h) == multiset(ForStudent(att, id))
    ensures NewestFirst(h)
    ensures forall d :: OnDate(h, d) == OnDate(ForStudent(att, id), d)
  {
    var mine := ForStudent(att, id);
    var h := SortByDateDesc(mine);
    SortByDateDescNewestFirst(mine);
    forall d ensures OnDate(h, d) == OnDate(mine, d) { SortByDateDescStable(mine, d); }
    forall k | 0 <= k < |h| ensures h[k].studentId == id {
      assert h[k] in multiset(h);
    }
    h
  }

  // ---------------------------------------------------------------------
  // Class report for one day

  predicate InClassOnDay(r: AttendanceRecord, grade: string, classroom: string, date: string) {
    r.grade == grade && r.classroom == classroom && r.date == date
  }

  /** `attendance.filter(a => a.grade === grade && a.classroom === classroom
      && a.date === date)`, counted with multiplicity. */
  function DayAttendance(att: seq<AttendanceRecord>, grade: string, classroom: string, date: string)
    : (r: seq<AttendanceRecord>)
    ensures forall x :: multiset(r)[x] == if InClassOnDay(x, grade, classroom, date) then multiset(att)[x] else 0
  {
    if att == [] then []
    else
      var last := att[|att| - 1];
      assert att == att[..|att| - 1] + [last];
      DayAttendance(att[..|att| - 1], grade, classroom, date)
        + if InClassOnDay(last, grade, classroom, date) then [last] else []
  }

  /** `students.filter(s => s.grade === grade && s.classroom === classroom)`,
      counted with multiplicity. */
  function ClassStudents(students: seq<Student>, grade: string, classroom: string): (r: seq<Student>)
    ensures forall x: Student :: multiset(r)[x] == (if x.grade == grade && x.classroom == classroom
                                                    then multiset(students)[x] else 0)
  {
    if students == [] then []
    else
      var last := students[|students| - 1];
      assert students == students[..|students| - 1] + [last];
      ClassStudents(students[..|students| - 1], grade, classroom)
        + if last.grade == grade && last.classroom == classroom then [last] else []
  }

  /** The class filter keeps registration order: filtering a concatenation
      filters each part. */
  lemma {:induction false} ClassStudentsAppend(a: seq<Student>, b: seq<Student>, grade: string, classroom: string)
    ensures ClassStudents(a + b, grade, classroom) == ClassStudents(a, grade, classroom) + ClassStudents(b, grade, classroom)
  {
    if b == [] {
      assert a + b == a;
    } else {
      var init, last := b[..|b| - 1], b[|b| - 1];
      var z := if last.grade == grade && last.classroom == classroom then [last] else [];
      assert b == init + [last];
      assert a + b == (a + init) + [last];
      ClassStudentsSnoc(init, last, grade, classroom);
      ClassStudentsSnoc(a + init, last, grade, classroom);
      ClassStudentsAppend(a, init, grade, classroom);
      ConcatAssoc(ClassStudents(a, grade, classroom), ClassStudents(init, grade, classroom), z);
    }
  }

  lemma ClassStudentsSnoc(a: seq<Student>, last: Student, grade: string, classroom: string)
    ensures ClassStudents(a + [last], grade, classroom)
            == ClassStudents(a, grade, classroom) + if last.grade == grade && last.classroom == classroom then [last] else []
  {
    assert (a + [last])[..|a|] == a;
  }

  function StudentIds(day: seq<AttendanceRecord>): set<int> {
    set r | r in day :: r.studentId
  }

  /** Index `i` holds the last record of student `id` in `day`. */
  predicate IsLastFor(day: seq<AttendanceRecord>, i: int, id: int) {
    && 0 <= i < |day|
    && day[i].studentId == id
    && forall j :: i < j < |day| ==> day[j].studentId != id
  }

  /** The status the `forEach` over `day` leaves in `attendanceMap[id]`: that
      of the last record of the student, later records overwriting earlier. */
  function LastStatus(day: seq<AttendanceRecord>, id: int): (r: Option<Status>)
    ensures r.None? <==> id !in StudentIds(day)
    ensures r.Some? ==> exists i :: IsLastFor(day, i, id) && day[i].status == r.value
  {
    if day == [] then None
    else
      var init := day[..|day| - 1];
      var last := day[|day| - 1];
      assert day == init + [last];
      if last.studentId == id then
        assert IsLastFor(day, |day| - 1, id);
        Some(last.status)
      else
        var r := LastStatus(init, id);
        assert forall j :: 0 <= j < |init| ==> day[j] == init[j];
        assert StudentIds(day) == StudentIds(init) + {last.studentId};
        if r.Some? then
          var i :| IsLastFor(init, i, id) && init[i].status == r.value;
          assert IsLastFor(day, i, id);
          r
        else
          r
  }

  /** `attendanceMap` as the `forEach` loop in `loadClassAttendance` builds it:
      one key per student id in `day`, holding that student's last status. */
  method BuildAttendanceMap(day: seq<AttendanceRecord>) returns (m: map<int, Status>)
    ensures m.Keys == StudentIds(day)
    ensures forall id :: LastStatus(day, id) == if id in m then Some(m[id]) else None
  {
    m := map[];
    var i := 0;
    while i < |day|
      invariant 0 <= i <= |day|
      invariant m.Keys == StudentIds(day[..i])
      invariant forall id :: LastStatus(day[..i], id) == if id in m then Some(m[id]) else None
    {
      var a := day[i];
      assert day[..i + 1] == day[..i] + [a];
      assert day[..i + 1][..i] == day[..i];
      assert StudentIds(day[..i + 1]) == StudentIds(day[..i]) + {a.studentId};
      m := m[a.studentId := a.status];
      i := i + 1;
    }
    assert day[..i] == day;
  }

  /** The status of the last record in `att` for student `id` in the given
      class on the given day, read off `att` itself. */
  function LastMark(att: seq<AttendanceRecord>, grade: string, classroom: string, date: string, id: int)
    : (r: Option<Status>)
    ensures r.None? <==> forall k :: 0 <= k < |att| ==>
              !(InClassOnDay(att[k], grade, classroom, date) && att[k].studentId == id)
    ensures r.Some? ==> exists k :: 0 <= k < |att| && InClassOnDay(att[k], grade, classroom, date)
                                    && att[k].studentId == id && att[k].status == r.value
                                    && forall j :: k < j < |att| ==>
                                         !(InClassOnDay(att[j], grade, classroom, date) && att[j].studentId == id)
  {
    if att == [] then None
    else
      var init := att[..|att| - 1];
      var last := att[|att| - 1];
      assert forall j :: 0 <= j < |init| ==> att[j] == init[j];
      if InClassOnDay(last, grade, classroom, date) && last.studentId == id then Some(last.status)
      else LastMark(init, grade, classroom, date, id)
  }

  /** The map lookup in the report gives, for each student, the status of
      the student's last matching record in `att`. */
  lemma {:induction false} ReportLooksUpLastMark(att: seq<AttendanceRecord>, grade: string, classroom: string,
                                                 date: string, id: int)
    ensures LastStatus(DayAttendance(att, grade, classroom, date), id) == LastMark(att, grade, classroom, date, id)
  {
    if att != [] {
      var init := att[..|att| - 1];
      var last := att[|att| - 1];
      ReportLooksUpLastMark(init, grade, classroom, date, id);
      var day0 := DayAttendance(init, grade, classroom, date);
      if InClassOnDay(last, grade, classroom, date) {
        assert (day0 + [last])[..|day0|] == day0;
      } else {
        assert DayAttendance(att, grade, classroom, date) == day0;
      }
    }
  }

  /** Under the ledger invariant, a student's mark in the class for the day
      is the one the report shows. */
  lemma ReportShowsTheMark(att: seq<AttendanceRecord>, grade: string, classroom: string, date: string, k: int)
    requires AtMostOnePerDay(att)
    requires 0 <= k < |att| && InClassOnDay(att[k], grade, classroom, date)
    ensures LastMark(att, grade, classroom, date, att[k].studentId) == Some(att[k].status)
  {
    var id := att[k].studentId;
    var r := LastMark(att, grade, classroom, date, id);
    assert r.Some?;
    var i :| 0 <= i < |att| && InClassOnDay(att[i], grade, classroom, date)
             && att[i].studentId == id && att[i].status == r.value
             && forall j :: i < j < |att| ==> !(InClassOnDay(att[j], grade, classroom, date) && att[j].studentId == id);
    assert !(i < k);
    assert att[i].studentId == att[k].studentId && att[i].date == att[k].date;
    assert i == k;
  }

  /** What the report shows for one student: the looked-up status, or
      `'not-marked'` when the map has no entry. */
  datatype ClassStatus = Recorded(status: Status) | NotMarked

  function ShownStatus(o: Option<Status>): ClassStatus {
    if o.Some? then Recorded(o.value) else NotMarked
  }
}
