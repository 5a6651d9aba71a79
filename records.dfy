/** The records the app keeps in its three collections and its session. */
module Records {

  datatype Option<+T> = None | Some(value: T)

  /** An account as registered. Students and teachers share `id`, `name`,
      `username` and `password`; a student also has a grade label and a
      free-text classroom, a teacher a subject. `id` is the `Date.now()`
      value taken at registration. */
  datatype Account =
    | StudentAccount(id: int, name: string, username: string, password: string,
                     grade: string, classroom: string)
    | TeacherAccount(id: int, name: string, username: string, password: string,
                     subject: string)

  type Student = a: Account | a.StudentAccount? witness StudentAccount(0, "", "", "", "", "")
  type Teacher = a: Account | a.TeacherAccount? witness TeacherAccount(0, "", "", "", "")

  datatype Role = StudentRole | TeacherRole

  /** `currentUser`: a copy of the logged-in account plus its role tag. */
  datatype Session = Session(account: Account, role: Role)

  /** The two values the attendance buttons pass (`'present'`, `'absent'`). */
  datatype Status = Present | Absent

  /** One attendance mark. Name, grade and classroom are copies of the
      session's values at the time of marking; `date` is the `YYYY-MM-DD`
      day and `timestamp` the full ISO instant. */
  datatype AttendanceRecord = AttendanceRecord(
    studentId: int, studentName: string, grade: string, classroom: string,
    date: string, status: Status, timestamp: string)
}
