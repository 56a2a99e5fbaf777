/** The roster queries and the roster upsert (src/services/studentService.js). */
module Students {
  import opened Wrappers
  import opened Text
  import opened Database
  import Sorting
  import Time

  const LoadError := "학생 목록을 불러올 수 없습니다."

  /** `classInfo.split('-').map(Number)` destructured into grade and class. A missing or NaN part
      is not an integer the database can compare with, so the query built from it fails: that is
      `None`. */
  function ParseClassInfo(classInfo: string): Option<(int, int)> {
    var parts := Split(classInfo, '-');
    if |parts| < 2 then None
    else
      match (ToNumber(parts[0]), ToNumber(parts[1]))
      case (Num(g), Num(c)) => Some((g, c))
      case _ => None
  }

  /** "G-C" with digit runs G and C reads as grade G and class C; an empty run reads as 0, since
      `Number('')` is 0. */
  lemma ParseClassInfoDigits(g: string, c: string)
    requires AllDigits(g) && AllDigits(c)
    ensures ParseClassInfo(g + "-" + c) == Some((DigitsValue(g) as int, DigitsValue(c) as int))
  {
    assert forall i :: 0 <= i < |g| ==> g[i] != '-';
    assert forall i :: 0 <= i < |c| ==> c[i] != '-';
    SplitAround(g, c, '-');
    ToNumberDigits(g);
    ToNumberDigits(c);
  }

  /** A text without '-' selects no class. */
  lemma ParseClassInfoNoDash(classInfo: string)
    requires '-' !in classInfo
    ensures ParseClassInfo(classInfo) == None
  {
    SplitNoSep(classInfo, '-');
  }

  predicate InClass(s: Student, grade: int, classNumber: int) {
    s.grade == grade && s.classNumber == classNumber
  }

  predicate ByNumber(a: Student, b: Student) {
    a.studentNumber <= b.studentNumber
  }

  /** `.eq('grade', grade).eq('class_number', classNumber).order('student_number')`. */
  function StudentsByClass(rows: seq<Student>, grade: int, classNumber: int): seq<Student> {
    Sorting.Sort(Sorting.Filter(rows, s => InClass(s, grade, classNumber)), ByNumber)
  }

  lemma ByNumberIsOrder()
    ensures Sorting.Total(ByNumber) && Sorting.Transitive(ByNumber)
  {
  }

  /** The class query returns exactly the class's rows, each as often as in the table, in
      student-number order. */
  lemma StudentsByClassSpec(rows: seq<Student>, grade: int, classNumber: int)
    ensures var r := StudentsByClass(rows, grade, classNumber);
      && (forall s :: s in r <==> s in rows && InClass(s, grade, classNumber))
      && multiset(r) == multiset(Sorting.Filter(rows, s => InClass(s, grade, classNumber)))
      && Sorting.SortedBy(r, ByNumber)
  {
    var f := Sorting.Filter(rows, s => InClass(s, grade, classNumber));
    var r := StudentsByClass(rows, grade, classNumber);
    Sorting.FilterMembers(rows, s => InClass(s, grade, classNumber));
    ByNumberIsOrder();
    Sorting.SortSorted(f, ByNumber);
    forall s ensures s in r <==> s in f {
      assert s in r <==> s in multiset(r);
    }
  }

  /** getStudentsByClass: the query error becomes an error. */
  function GetStudentsByClass(rows: seq<Student>, grade: int, classNumber: int, queryOk: bool): (r: Result<seq<Student>, string>)
    ensures r.Ok? <==> queryOk
  {
    if !queryOk then Err(LoadError) else Ok(StudentsByClass(rows, grade, classNumber))
  }

  /** getClassStudents: the class text parsed with `Number`, then the same query. */
  function GetClassStudents(rows: seq<Student>, classInfo: string, queryOk: bool): Result<seq<Student>, string> {
    match ParseClassInfo(classInfo)
    case None => Err(LoadError)
    case Some((g, c)) => GetStudentsByClass(rows, g, c, queryOk)
  }

  /** For a "G-C" text of digits getClassStudents selects what getStudentsByClass(G, C) does. */
  lemma GetClassStudentsAgrees(rows: seq<Student>, g: string, c: string, queryOk: bool)
    requires AllDigits(g) && AllDigits(c)
    ensures GetClassStudents(rows, g + "-" + c, queryOk)
         == GetStudentsByClass(rows, DigitsValue(g) as int, DigitsValue(c) as int, queryOk)
  {
    ParseClassInfoDigits(g, c);
  }

  /** The upsert on `student_id`: the row with that id is replaced where it stands, otherwise the
      new row is added at the end. */
  function Upsert(rows: seq<Student>, s: Student): seq<Student> {
    if rows == [] then [s]
    else if rows[0].id == s.id then [s] + rows[1..]
    else [rows[0]] + Upsert(rows[1..], s)
  }

  /** After the upsert the new row is present and every row of another id is kept. */
  lemma {:induction false} UpsertMembers(rows: seq<Student>, s: Student)
    ensures s in Upsert(rows, s)
    ensures forall x :: x in Upsert(rows, s) && x.id != s.id <==> x in rows && x.id != s.id
  {
    if rows != [] {
      assert forall x :: x in rows <==> x == rows[0] || x in rows[1..];
      if rows[0].id != s.id {
        UpsertMembers(rows[1..], s);
      }
    }
  }

  lemma UniqueTail(rows: seq<Student>)
    requires rows != [] && UniqueIds(rows)
    ensures UniqueIds(rows[1..])
    ensures forall x :: x in rows[1..] ==> x.id != rows[0].id
  {
    var tail := rows[1..];
    forall i, j | 0 <= i < j < |tail| ensures tail[i].id != tail[j].id {
      assert tail[i] == rows[i + 1] && tail[j] == rows[j + 1];
    }
    forall x | x in tail ensures x.id != rows[0].id {
      var i :| 0 <= i < |tail| && tail[i] == x;
      assert rows[i + 1] == x;
    }
  }

  lemma UniqueCons(x: Student, rows: seq<Student>)
    requires UniqueIds(rows) && forall y :: y in rows ==> y.id != x.id
    ensures UniqueIds([x] + rows)
  {
    var r := [x] + rows;
    forall i, j | 0 <= i < j < |r| ensures r[i].id != r[j].id {
      if i == 0 {
        assert r[j] in rows;
      } else {
        assert r[i] == rows[i - 1] && r[j] == rows[j - 1];
      }
    }
  }

  /** On a table with one row per id the upsert keeps one row per id, the one with the new id
      being the new row. */
  lemma {:induction false} UpsertUnique(rows: seq<Student>, s: Student)
    requires UniqueIds(rows)
    ensures UniqueIds(Upsert(rows, s))
    ensures forall x :: x in Upsert(rows, s) && x.id == s.id ==> x == s
  {
    if rows != [] {
      UniqueTail(rows);
      if rows[0].id != s.id {
        UpsertUnique(rows[1..], s);
        UpsertMembers(rows[1..], s);
        UniqueCons(rows[0], Upsert(rows[1..], s));
      } else {
        UniqueCons(s, rows[1..]);
      }
    }
  }

  /** Upserting twice with the same id leaves what a single upsert of the second row leaves: the
      second call replaces the first call's fields. */
  lemma {:induction false} UpsertTwice(rows: seq<Student>, s1: Student, s2: Student)
    requires s1.id == s2.id
    ensures Upsert(Upsert(rows, s1), s2) == Upsert(rows, s2)
  {
    if rows != [] && rows[0].id != s1.id {
      UpsertTwice(rows[1..], s1, s2);
    }
  }

  /** createOrUpdateStudent. */
  method CreateOrUpdateStudent(t: StudentsTable, s: Student, upsertOk: bool) returns (r: Result<Student, string>)
    requires t.Valid()
    modifies t
    ensures t.Valid()
    ensures upsertOk ==> r == Ok(s) && t.rows == Upsert(old(t.rows), s)
    ensures !upsertOk ==> r.Err? && t.rows == old(t.rows)
  {
    if !upsertOk {
      return Err("학생 " + s.id + " 저장 실패");
    }
    UpsertUnique(t.rows, s);
    t.rows := Upsert(t.rows, s);
    r := Ok(s);
  }

  /** The first `login_sessions` row of a student, as the embedded `login_sessions?.[0]`. */
  function FirstSession(sessions: seq<Session>, id: string): Option<Session> {
    if sessions == [] then None
    else if sessions[0].studentId == id then Some(sessions[0])
    else FirstSession(sessions[1..], id)
  }

  /** There is a first session exactly when the student has a session, and it is the earliest
      row of that student. */
  lemma {:induction false} FirstSessionSpec(sessions: seq<Session>, id: string)
    ensures FirstSession(sessions, id).None? <==> forall i :: 0 <= i < |sessions| ==> sessions[i].studentId != id
    ensures FirstSession(sessions, id).Some? ==>
      exists i :: 0 <= i < |sessions| && sessions[i] == FirstSession(sessions, id).value
                  && sessions[i].studentId == id
                  && forall j :: 0 <= j < i ==> sessions[j].studentId != id
  {
    if sessions != [] && sessions[0].studentId != id {
      var tail := sessions[1..];
      FirstSessionSpec(tail, id);
      forall i | 0 < i < |sessions| ensures sessions[i] == tail[i - 1] {
      }
      if FirstSession(tail, id).Some? {
        var i :| 0 <= i < |tail| && tail[i] == FirstSession(tail, id).value && tail[i].studentId == id
                 && forall j :: 0 <= j < i ==> tail[j].studentId != id;
        assert sessions[i + 1] == tail[i];
      }
    }
  }

  datatype StudentStatus = StudentStatus(student: Student, isLoggedIn: bool, loginTime: Option<int>)

  /** The status columns getAllStudentsWithLoginStatus adds to a student. */
  function LoginStatus(s: Student, sessions: seq<Session>, now: int): StudentStatus {
    var session := FirstSession(sessions, s.id);
    StudentStatus(s, session.Some? && session.value.expiresAt > now,
                  if session.Some? then Some(session.value.loginTime) else None)
  }

  /** A student is shown logged in exactly when the first session exists and is not expired in
      the sense of isSessionExpired; a login time is shown exactly when a session exists. */
  lemma LoginStatusSpec(s: Student, sessions: seq<Session>, now: int)
    ensures var st := LoginStatus(s, sessions, now);
      && (st.isLoggedIn <==> FirstSession(sessions, s.id).Some?
                             && !Time.IsSessionExpired(Some(FirstSession(sessions, s.id).value.expiresAt), now))
      && (st.loginTime.None? <==> forall i :: 0 <= i < |sessions| ==> sessions[i].studentId != s.id)
  {
    FirstSessionSpec(sessions, s.id);
  }

  predicate ById(a: Student, b: Student) {
    LexLe(a.id, b.id)
  }

  /** getAllStudentsWithLoginStatus: every student, ordered by id, with the login columns. */
  function GetAllStudentsWithLoginStatus(rows: seq<Student>, sessions: seq<Session>, now: int, queryOk: bool): Result<seq<StudentStatus>, string> {
    if !queryOk then Err(LoadError)
    else Ok(Sorting.MapSeq(Sorting.Sort(rows, ById), s => LoginStatus(s, sessions, now)))
  }

  /** The listing holds every student once per row, in id order, each with its own status. */
  lemma AllStudentsSpec(rows: seq<Student>, sessions: seq<Session>, now: int)
    ensures var r := GetAllStudentsWithLoginStatus(rows, sessions, now, true).value;
      && |r| == |rows|
      && multiset(Sorting.MapSeq(r, (st: StudentStatus) => st.student)) == multiset(rows)
      && (forall i :: 0 <= i < |r| ==> r[i] == LoginStatus(r[i].student, sessions, now))
      && (forall i, j :: 0 <= i < j < |r| ==> LexLe(r[i].student.id, r[j].student.id))
  {
    var sorted := Sorting.Sort(rows, ById);
    var r := Sorting.MapSeq(sorted, s => LoginStatus(s, sessions, now));
    assert Sorting.Total(ById) && Sorting.Transitive(ById) by {
      forall a, b ensures ById(a, b) || ById(b, a) {
        LexLeTotal(a.id, b.id);
      }
      forall a, b, c | ById(a, b) && ById(b, c) ensures ById(a, c) {
        LexLeTransitive(a.id, b.id, c.id);
      }
    }
    Sorting.SortSorted(rows, ById);
    var back := Sorting.MapSeq(r, (st: StudentStatus) => st.student);
    assert back == sorted;
    assert |sorted| == |rows| by {
      assert |multiset(sorted)| == |multiset(rows)|;
    }
  }
}
