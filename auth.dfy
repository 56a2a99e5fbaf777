/** Student login, session validation, logout and the administrator login
    (src/services/authService.js). A login replaces the student's sessions by one that expires 40
    minutes later; every database call is a boolean outcome parameter. */
module Auth {
  import opened Wrappers
  import opened Text
  import opened Database
  import Validation
  import Time
  import Sorting
  import Help

  const IdFormatError := "올바른 학번 형식이 아닙니다. (4자리 숫자)"
  const NameError := "이름을 입력해주세요."
  const MismatchError := "학번 또는 이름이 일치하지 않습니다."
  const SessionError := "세션 생성에 실패했습니다."
  const PasswordError := "비밀번호가 일치하지 않습니다."

  datatype LoginData = LoginData(student: Student, session: Session)

  /** The students the login query selects: that id and the trimmed name. */
  function Matching(rows: seq<Student>, id: string, name: string): (r: seq<Student>)
    ensures forall s :: s in r <==> s in rows && s.id == id && s.name == Trim(name)
  {
    Sorting.FilterMembers(rows, (s: Student) => s.id == id && s.name == Trim(name));
    Sorting.Filter(rows, (s: Student) => s.id == id && s.name == Trim(name))
  }

  /** With one row per id at most one row matches. */
  lemma MatchingAtMostOne(rows: seq<Student>, id: string, name: string)
    requires UniqueIds(rows)
    ensures |Matching(rows, id, name)| <= 1
  {
    var r := Matching(rows, id, name);
    assert Sorting.NoDup(rows);
    Sorting.FilterNoDup(rows, (s: Student) => s.id == id && s.name == Trim(name));
    forall k | 0 <= k < |r| ensures r[k] == r[0] {
      assert r[k] in rows && r[0] in rows;
      var i :| 0 <= i < |rows| && rows[i] == r[k];
      var j :| 0 <= j < |rows| && rows[j] == r[0];
      assert rows[i].id == rows[j].id;
      assert i == j;
    }
    if |r| >= 2 {
      Sorting.NoDupFirstTwo(r);
      assert false;
    }
  }

  /** The sessions left after `delete().eq('student_id', id)`. */
  function WithoutStudent(sessions: seq<Session>, id: string): (r: seq<Session>)
    ensures forall x :: x in r <==> x in sessions && x.studentId != id
  {
    Sorting.FilterMembers(sessions, (x: Session) => x.studentId != id);
    Sorting.Filter(sessions, (x: Session) => x.studentId != id)
  }

  /** The student's sessions. */
  function SessionsOf(sessions: seq<Session>, id: string): (r: seq<Session>)
    ensures forall x :: x in r <==> x in sessions && x.studentId == id
  {
    Sorting.FilterMembers(sessions, (x: Session) => x.studentId == id);
    Sorting.Filter(sessions, (x: Session) => x.studentId == id)
  }

  /** loginStudent: the id is checked, then the name, both before any table is touched; then the
      student must match id and trimmed name; the old sessions are deleted (the outcome of the
      delete ignored) and a session from now to 40 minutes later is inserted. */
  method LoginStudent(students: seq<Student>, sessions: SessionsTable, id: Option<string>, name: Option<string>, now: int,
                      selectOk: bool, deleteOk: bool, insertOk: bool)
    returns (r: Result<LoginData, string>)
    requires UniqueIds(students)
    modifies sessions
    ensures !Validation.ValidateStudentId(id) ==> r == Err(IdFormatError) && sessions.rows == old(sessions.rows)
    ensures Validation.ValidateStudentId(id) && !Validation.ValidateName(name) ==> r == Err(NameError) && sessions.rows == old(sessions.rows)
    ensures r.Ok? <==> Validation.ValidateStudentId(id) && Validation.ValidateName(name) && selectOk
                       && |Matching(students, id.value, name.value)| == 1 && insertOk
    ensures r.Ok? ==> var session := Session(id.value, now, Time.GetSessionExpiryTime(now));
      && r.value.student in students && r.value.student.id == id.value && r.value.student.name == Trim(name.value)
      && r.value.session == session
      && sessions.rows == (if deleteOk then WithoutStudent(old(sessions.rows), id.value) else old(sessions.rows)) + [session]
    ensures r.Err? ==> sessions.rows == old(sessions.rows)
                       || sessions.rows == if deleteOk then WithoutStudent(old(sessions.rows), id.value) else old(sessions.rows)
  {
    if !Validation.ValidateStudentId(id) {
      return Err(IdFormatError);
    }
    if !Validation.ValidateName(name) {
      return Err(NameError);
    }
    var studentId := id.value;
    var found := Matching(students, studentId, name.value);
    MatchingAtMostOne(students, studentId, name.value);
    if !selectOk || |found| != 1 {
      return Err(MismatchError);
    }
    var student := found[0];
    if deleteOk {
      sessions.rows := WithoutStudent(sessions.rows, studentId);
    }
    if !insertOk {
      return Err(SessionError);
    }
    var session := Session(studentId, now, Time.GetSessionExpiryTime(now));
    sessions.rows := sessions.rows + [session];
    r := Ok(LoginData(student, session));
  }

  /** After a login whose delete went through, the student has exactly the new session, and it
      expires 40 minutes after the login. */
  lemma LoginLeavesOneSession(sessions: seq<Session>, id: string, now: int)
    ensures SessionsOf(WithoutStudent(sessions, id) + [Session(id, now, Time.GetSessionExpiryTime(now))], id)
         == [Session(id, now, now + Time.SessionMs)]
  {
    var rest := WithoutStudent(sessions, id);
    var s := Session(id, now, Time.GetSessionExpiryTime(now));
    var r := SessionsOf(rest + [s], id);
    assert forall x :: x in rest ==> x.studentId != id;
    SessionsOfAppend(rest, s, id);
  }

  lemma {:induction false} SessionsOfAppend(rest: seq<Session>, s: Session, id: string)
    requires forall x :: x in rest ==> x.studentId != id
    requires s.studentId == id
    ensures SessionsOf(rest + [s], id) == [s]
    decreases |rest|
  {
    if rest == [] {
      assert [s][1..] == [];
    } else {
      assert (rest + [s])[1..] == rest[1..] + [s];
      assert rest[0] in rest;
      SessionsOfAppend(rest[1..], s, id);
    }
  }

  datatype SessionCheck = SessionCheck(valid: bool, session: Option<Session>)

  /** validateSession: `.single()` needs exactly one session row; an expired session (the
      boundary counting as expired) is deleted, the outcome of the delete ignored. */
  method ValidateSession(sessions: SessionsTable, id: string, now: int, selectOk: bool, deleteOk: bool)
    returns (r: SessionCheck)
    modifies sessions
    ensures var mine := SessionsOf(old(sessions.rows), id);
      && (r.valid <==> selectOk && |mine| == 1 && !Time.IsSessionExpired(Some(mine[0].expiresAt), now))
      && (r.valid ==> r.session == Some(mine[0]) && sessions.rows == old(sessions.rows))
      && (!r.valid ==> r.session == None)
      && sessions.rows == if selectOk && |mine| == 1 && Time.IsSessionExpired(Some(mine[0].expiresAt), now) && deleteOk
                          then WithoutStudent(old(sessions.rows), id) else old(sessions.rows)
  {
    var mine := SessionsOf(sessions.rows, id);
    if !selectOk || |mine| != 1 {
      return SessionCheck(false, None);
    }
    var session := mine[0];
    if Time.IsSessionExpired(Some(session.expiresAt), now) {
      if deleteOk {
        sessions.rows := WithoutStudent(sessions.rows, id);
      }
      return SessionCheck(false, None);
    }
    r := SessionCheck(true, Some(session));
  }

  /** A session just created by login is valid for 40 minutes, its last instant excluded. */
  lemma FreshSessionValid(id: string, now: int, later: int)
    ensures var s := Session(id, now, Time.GetSessionExpiryTime(now));
      !Time.IsSessionExpired(Some(s.expiresAt), later) <==> later < now + Time.SessionMs
  {
  }

  /** logoutStudent: deletes the student's sessions and marks their help request inactive; the
      outcomes of both calls are ignored and the logout always succeeds. */
  method LogoutStudent(sessions: SessionsTable, help: HelpRequestsTable, id: string, deleteOk: bool, updateOk: bool)
    returns (success: bool)
    modifies sessions, help
    ensures success
    ensures sessions.rows == if deleteOk then WithoutStudent(old(sessions.rows), id) else old(sessions.rows)
    ensures help.rows == if updateOk then Help.Deactivate(old(help.rows), id) else old(help.rows)
  {
    if deleteOk {
      sessions.rows := WithoutStudent(sessions.rows, id);
    }
    if updateOk {
      help.rows := Help.Deactivate(help.rows, id);
    }
    success := true;
  }

  /** After a logout whose calls went through the student has no session and no active help
      request, and nobody else's rows changed. */
  lemma LogoutClears(sessions: seq<Session>, rows: map<string, HelpRequest>, id: string)
    ensures SessionsOf(WithoutStudent(sessions, id), id) == []
    ensures id in Help.Deactivate(rows, id) ==> !Help.Deactivate(rows, id)[id].isActive
    ensures forall x :: x in sessions && x.studentId != id ==> x in WithoutStudent(sessions, id)
  {
    var mine := SessionsOf(WithoutStudent(sessions, id), id);
    assert forall i :: 0 <= i < |mine| ==> mine[i] in mine;
  }

  /** loginAdmin: succeeds exactly for the administrator password. */
  function LoginAdmin(password: string): (r: Result<(), string>)
    ensures r.Ok? <==> password == "teacher123"
  {
    if !Validation.ValidateAdminPassword(password) then Err(PasswordError) else Ok(())
  }
}
