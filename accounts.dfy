/** The account manager's lookups over the `students` and `teachers`
    collections, and the classroom list computed from the students. */
module Accounts {
  import opened Records
  import opened Strings

  predicate HasCredentials(a: Account, username: string, password: string) {
    a.username == username && a.password == password
  }

  /** Index `i` holds the first account whose username and password both
      equal the given ones. */
  predicate IsFirstLogin(accounts: seq<Account>, i: int, username: string, password: string) {
    && 0 <= i < |accounts|
    && HasCredentials(accounts[i], username, password)
    && forall j :: 0 <= j < i ==> !HasCredentials(accounts[j], username, password)
  }

  /** `accounts.find(a => a.username === username && a.password === password)`. */
  function FindLogin(accounts: seq<Account>, username: string, password: string): (r: Option<Account>)
    ensures r.None? <==> forall j :: 0 <= j < |accounts| ==> !HasCredentials(accounts[j], username, password)
    ensures r.Some? ==> exists i :: IsFirstLogin(accounts, i, username, password) && accounts[i] == r.value
  {
    if accounts == [] then None
    else if HasCredentials(accounts[0], username, password) then
      assert IsFirstLogin(accounts, 0, username, password);
      Some(accounts[0])
    else
      var r := FindLogin(accounts[1..], username, password);
      assert forall j :: 1 <= j < |accounts| ==> accounts[j] == accounts[1..][j - 1];
      if r.Some? then
        var i :| IsFirstLogin(accounts[1..], i, username, password) && accounts[1..][i] == r.value;
        assert IsFirstLogin(accounts, i + 1, username, password);
        r
      else
        r
  }

  /** A login sets the session to the first matching record, so the session
      account always comes from the collection and carries the credentials
      that were typed in. */
  lemma FoundLoginHasCredentials(accounts: seq<Account>, username: string, password: string)
    requires FindLogin(accounts, username, password).Some?
    ensures var a := FindLogin(accounts, username, password).value;
            a in accounts && HasCredentials(a, username, password)
  {
    var i :| IsFirstLogin(accounts, i, username, password)
             && accounts[i] == FindLogin(accounts, username, password).value;
  }

  /** `accounts.find(a => a.username === username)` is truthy. */
  function UsernameTaken(accounts: seq<Account>, username: string): (b: bool)
    ensures b <==> exists i :: 0 <= i < |accounts| && accounts[i].username == username
  {
    if accounts == [] then false
    else if accounts[0].username == username then true
    else
      assert forall j :: 1 <= j < |accounts| ==> accounts[j] == accounts[1..][j - 1];
      UsernameTaken(accounts[1..], username)
  }

  /** No two accounts of one collection share a username. */
  predicate UniqueUsernames(accounts: seq<Account>) {
    forall i, j :: 0 <= i < j < |accounts| ==> accounts[i].username != accounts[j].username
  }

  /** Appending an account whose username is free keeps usernames unique. */
  lemma AppendFreeUsername(accounts: seq<Account>, a: Account)
    requires UniqueUsernames(accounts) && !UsernameTaken(accounts, a.username)
    ensures UniqueUsernames(accounts + [a])
  {
  }

  /** With unique usernames, a login can match at most one account, so the
      session an account gets does not depend on the order of the collection. */
  lemma UniqueLoginMatch(accounts: seq<Account>, username: string, password: string, k: int)
    requires UniqueUsernames(accounts)
    requires 0 <= k < |accounts| && HasCredentials(accounts[k], username, password)
    ensures FindLogin(accounts, username, password) == Some(accounts[k])
  {
    var r := FindLogin(accounts, username, password);
    assert r.Some?;
    var i :| IsFirstLogin(accounts, i, username, password) && accounts[i] == r.value;
    assert accounts[i].username == accounts[k].username;
    assert i == k;
  }

  /** `students.filter(s => s.grade === grade).map(s => s.classroom)`. */
  function ClassroomsOfGrade(students: seq<Student>, grade: string): (r: seq<string>)
    ensures forall c :: c in r <==> exists i :: 0 <= i < |students| && students[i].grade == grade
                                               && students[i].classroom == c
  {
    if students == [] then []
    else
      var init := students[..|students| - 1];
      var last := students[|students| - 1];
      assert forall i :: 0 <= i < |init| ==> init[i] == students[i];
      ClassroomsOfGrade(init, grade) + if last.grade == grade then [last.classroom] else []
  }

  /** `getAvailableClassrooms(grade)`: the distinct classroom labels of the
      students in `grade`, in ascending order. */
  function AvailableClassrooms(students: seq<Student>, grade: string): (r: seq<string>)
    ensures StrictlyAscending(r)
    ensures forall c :: c in r <==> exists i :: 0 <= i < |students| && students[i].grade == grade
                                               && students[i].classroom == c
  {
    var distinct := Dedup(ClassroomsOfGrade(students, grade));
    var r := SortStrings(distinct);
    SortStringsAscending(distinct);
    PermutationNoDuplicates(distinct, r);
    AscendingDistinctIsStrict(r);
    assert forall c :: c in r <==> c in multiset(r);
    assert forall c :: c in distinct <==> c in multiset(distinct);
    r
  }
}
