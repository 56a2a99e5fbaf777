/** The teacher's role tab (src/modules/admin/AdminRoleTab.jsx): the role sessions and their role
    lists, the even handing out of a session's roles to the students of each class, and the
    cancelling of a session's hand-out. The random shuffle is an input that may only reorder;
    every database answer is an input. */
module AdminRole {
  import opened Wrappers
  import opened Text
  import opened Database
  import Sorting
  import Students
  import ItemList

  // ---------------------------------------------------------------------------------------
  // Role lists: the form is an ItemList.ItemForm whose entries are the roles

  const NoName := "세션 이름을 입력하세요"
  const NoRoles := "최소 1개 이상의 역할을 입력하세요"

  // ---------------------------------------------------------------------------------------
  // Even distribution

  /** How many students get the role at `index` when `n` students share `r` roles:
      `baseCount + (index < remainder ? 1 : 0)`. */
  function RoleCount(n: nat, r: nat, index: nat): nat
    requires r > 0
  {
    n / r + (if index < n % r then 1 else 0)
  }

  /** The counts are fair: earlier roles get at least as many, and no two differ by more than one. */
  lemma RoleCountFair(n: nat, r: nat, i: nat, j: nat)
    requires r > 0 && i <= j
    ensures RoleCount(n, r, j) <= RoleCount(n, r, i) <= RoleCount(n, r, j) + 1
  {
  }

  /** `count` copies of `role`. */
  function Repeat(role: string, count: nat): (s: seq<string>)
    ensures |s| == count && forall j :: 0 <= j < count ==> s[j] == role
  {
    seq(count, _ => role)
  }

  /** The role array after the first `k` roles of the forEach. */
  function Expand(roles: seq<string>, n: nat, k: nat): seq<string>
    requires 0 < |roles| && k <= |roles|
  {
    if k == 0 then [] else Expand(roles, n, k - 1) + Repeat(roles[k - 1], RoleCount(n, |roles|, k - 1))
  }

  /** The role array: every role repeated its count, in role order. */
  function RoleArray(roles: seq<string>, n: nat): seq<string>
    requires roles != []
  {
    Expand(roles, n, |roles|)
  }

  lemma {:induction false} ExpandLength(roles: seq<string>, n: nat, k: nat)
    requires 0 < |roles| && k <= |roles|
    ensures |Expand(roles, n, k)| == k * (n / |roles|) + (if k < n % |roles| then k else n % |roles|)
  {
    if k > 0 {
      ExpandLength(roles, n, k - 1);
      var q := n / |roles|;
      assert (k - 1) * q + q == k * q;
    }
  }

  /** The role array has exactly one entry per student. */
  lemma RoleArrayLength(roles: seq<string>, n: nat)
    requires roles != []
    ensures |RoleArray(roles, n)| == n
  {
    ExpandLength(roles, n, |roles|);
    assert n % |roles| < |roles|;
  }

  /** The total count of `x` among the first `k` roles. */
  function CountFor(roles: seq<string>, n: nat, k: nat, x: string): nat
    requires 0 < |roles| && k <= |roles|
  {
    if k == 0 then 0
    else CountFor(roles, n, k - 1, x) + (if roles[k - 1] == x then RoleCount(n, |roles|, k - 1) else 0)
  }

  lemma {:induction false} ExpandCounts(roles: seq<string>, n: nat, k: nat, x: string)
    requires 0 < |roles| && k <= |roles|
    ensures multiset(Expand(roles, n, k))[x] == CountFor(roles, n, k, x)
  {
    if k > 0 {
      ExpandCounts(roles, n, k - 1, x);
      var b := Repeat(roles[k - 1], RoleCount(n, |roles|, k - 1));
      assert multiset(Expand(roles, n, k)) == multiset(Expand(roles, n, k - 1)) + multiset(b);
      RepeatCount(roles[k - 1], RoleCount(n, |roles|, k - 1), x);
    }
  }

  lemma {:induction false} RepeatCount(role: string, count: nat, x: string)
    ensures multiset(Repeat(role, count))[x] == if role == x then count else 0
  {
    if count > 0 {
      assert Repeat(role, count) == Repeat(role, count - 1) + [role];
      RepeatCount(role, count - 1, x);
    }
  }

  lemma {:induction false} CountForOther(roles: seq<string>, n: nat, k: nat, x: string)
    requires 0 < |roles| && k <= |roles|
    requires forall j :: 0 <= j < k ==> roles[j] != x
    ensures CountFor(roles, n, k, x) == 0
  {
    if k > 0 {
      CountForOther(roles, n, k - 1, x);
    }
  }

  lemma {:induction false} CountForDistinct(roles: seq<string>, n: nat, k: nat, i: nat)
    requires 0 < |roles| && i < k <= |roles| && Sorting.NoDup(roles)
    ensures CountFor(roles, n, k, roles[i]) == RoleCount(n, |roles|, i)
  {
    if k - 1 == i {
      CountForOther(roles, n, i, roles[i]);
    } else {
      CountForDistinct(roles, n, k - 1, i);
    }
  }

  /** With distinct role names, the role at `index` appears exactly its count in the role array. */
  lemma RoleArrayCounts(roles: seq<string>, n: nat, index: nat)
    requires index < |roles| && Sorting.NoDup(roles)
    ensures multiset(RoleArray(roles, n))[roles[index]] == RoleCount(n, |roles|, index)
  {
    ExpandCounts(roles, n, |roles|, roles[index]);
    CountForDistinct(roles, n, |roles|, index);
  }

  /** A name that is not among the roles is never handed out. */
  lemma RoleArrayOnlyRoles(roles: seq<string>, n: nat, x: string)
    requires roles != [] && x !in roles
    ensures x !in RoleArray(roles, n)
  {
    ExpandCounts(roles, n, |roles|, x);
    CountForOther(roles, n, |roles|, x);
  }

  /** The nested loops of assignRoles that build the role array. */
  method BuildRoleArray(roles: seq<string>, studentCount: nat) returns (roleArray: seq<string>)
    requires roles != []
    ensures roleArray == RoleArray(roles, studentCount)
    ensures |roleArray| == studentCount
  {
    var baseCount := studentCount / |roles|;
    var remainder := studentCount % |roles|;
    roleArray := [];
    for index := 0 to |roles|
      invariant roleArray == Expand(roles, studentCount, index)
    {
      var count := baseCount + (if index < remainder then 1 else 0);
      for i := 0 to count
        invariant roleArray == Expand(roles, studentCount, index) + Repeat(roles[index], i)
      {
        assert Repeat(roles[index], i + 1) == Repeat(roles[index], i) + [roles[index]];
        roleArray := roleArray + [roles[index]];
      }
    }
    RoleArrayLength(roles, studentCount);
  }

  // ---------------------------------------------------------------------------------------
  // Sessions, hand-out and cancellation

  /** A row of `role_sessions`. */
  datatype RoleSession = RoleSession(id: int, name: string, roles: seq<string>)

  /** A row of `role_assignments`: the hand-out record. */
  datatype Assignment = Assignment(sessionId: int, sessionName: string, className: string,
                                   studentId: string, studentName: string, role: string)

  /** A row of `student_roles`: the role a student currently shows. */
  datatype StudentRole = StudentRole(studentId: string, studentName: string, roleName: string, isActive: bool)

  /** One line of the results shown after a hand-out. */
  datatype Assigned = Assigned(studentId: string, studentName: string, role: string)

  datatype ClassResult = ClassError(className: string, error: string) | ClassDone(className: string, assignments: seq<Assigned>)

  const BadClassName := "잘못된 학급 형식 (예: 3-1)"
  const QueryFailedPrefix := "학생 조회 실패: "
  const NoStudentsInClass := "학생이 없습니다"
  const SaveFailedPrefix := "저장 실패: "
  const EditFailedPrefix := "수정 실패: "

  /** Every stored session has at least one role and no blank role: both saves store only the
      valid roles, and only when there is one. */
  predicate SessionsValid(sessions: seq<RoleSession>) {
    forall i :: 0 <= i < |sessions| ==> sessions[i].roles != [] && forall x :: x in sessions[i].roles ==> !IsBlank(x)
  }

  /** `sessions.find(s => s.id === id)`. */
  function FindSession(sessions: seq<RoleSession>, id: int): (r: Option<RoleSession>)
    ensures r.None? <==> forall i :: 0 <= i < |sessions| ==> sessions[i].id != id
    ensures r.Some? ==> r.value in sessions && r.value.id == id
    ensures r.Some? ==> exists i :: 0 <= i < |sessions| && sessions[i] == r.value && forall j :: 0 <= j < i ==> sessions[j].id != id
  {
    Sorting.Find(sessions, (s: RoleSession) => s.id, id)
  }

  /** The update of saveEdit: the session with this id gets the new name and roles. */
  function Edited(sessions: seq<RoleSession>, id: int, name: string, roles: seq<string>): (r: seq<RoleSession>)
    ensures |r| == |sessions|
    ensures forall i :: 0 <= i < |r| ==> r[i] == if sessions[i].id == id then RoleSession(id, name, roles) else sessions[i]
  {
    seq(|sessions|, i requires 0 <= i < |sessions| => if sessions[i].id == id then RoleSession(id, name, roles) else sessions[i])
  }

  predicate NonEmpty(c: string) {
    c != []
  }

  /** `classInput.split(',').map(c => c.trim()).filter(c => c)`. */
  function ClassNames(input: string): (r: seq<string>)
    ensures forall i :: 0 <= i < |r| ==> r[i] != []
  {
    NamesFrom(Split(input, ','), 0, Trim)
  }

  /** The names given to the pieces from index `i` on, leaving out the empty ones, in order. */
  function NamesFrom(pieces: seq<string>, i: nat, name: string -> string): (r: seq<string>)
    requires i <= |pieces|
    ensures forall j :: 0 <= j < |r| ==> r[j] != []
    decreases |pieces| - i
  {
    if i == |pieces| then []
    else
      var t := name(pieces[i]);
      (if t != [] then [t] else []) + NamesFrom(pieces, i + 1, name)
  }

  /** The names from index `i` on are exactly the non-empty names of the pieces from there. */
  lemma {:induction false} NamesFromMembers(pieces: seq<string>, i: nat, name: string -> string, x: string)
    requires i <= |pieces|
    ensures x in NamesFrom(pieces, i, name) <==> x != [] && exists j :: i <= j < |pieces| && name(pieces[j]) == x
    decreases |pieces| - i
  {
    if i < |pieces| {
      NamesFromMembers(pieces, i + 1, name, x);
      if x in NamesFrom(pieces, i + 1, name) {
        var j :| i + 1 <= j < |pieces| && name(pieces[j]) == x;
        assert i <= j;
      }
    }
  }

  /** `x` is one of the comma-separated pieces of `input`, trimmed. */
  predicate TrimmedPiece(input: string, x: string) {
    exists i :: 0 <= i < |Split(input, ',')| && Trim(Split(input, ',')[i]) == x
  }

  /** The class names are exactly the trimmed comma-separated pieces that are not empty. */
  lemma ClassNamesSpec(input: string)
    ensures forall x :: x in ClassNames(input) <==> x != [] && TrimmedPiece(input, x)
  {
    var pieces := Split(input, ',');
    forall x ensures x in ClassNames(input) <==> x != [] && TrimmedPiece(input, x) {
      NamesFromMembers(pieces, 0, Trim, x);
      assert (exists j :: 0 <= j < |pieces| && Trim(pieces[j]) == x) <==> TrimmedPiece(input, x);
    }
  }

  /** A text without a comma names at most one class: itself, trimmed. */
  lemma ClassNamesSingle(input: string)
    requires ',' !in input
    ensures ClassNames(input) == if Trim(input) == [] then [] else [Trim(input)]
  {
    SplitNoSep(input, ',');
    assert NamesFrom([input], 1, Trim) == [];
  }

  /** `const [grade, classNumber] = className.split('-').map(Number)` and the check
      `!grade || !classNumber`: both must be numbers other than 0. */
  function ClassOf(className: string): (r: Option<(int, int)>)
    ensures r.Some? ==> r.value.0 != 0 && r.value.1 != 0
  {
    match Students.ParseClassInfo(className)
    case Some((g, c)) => if g != 0 && c != 0 then Some((g, c)) else None
    case None => None
  }

  /** "G-C" with digit runs G and C not reading 0 is the class (G, C); "3-" and "3-0" are not
      classes. */
  lemma ClassOfDigits(g: string, c: string)
    requires AllDigits(g) && AllDigits(c)
    ensures ClassOf(g + "-" + c) == if DigitsValue(g) != 0 && DigitsValue(c) != 0 then Some((DigitsValue(g) as int, DigitsValue(c) as int)) else None
  {
    Students.ParseClassInfoDigits(g, c);
  }

  /** How far one class got before the roles are handed out. */
  datatype Step = BadClass | QueryFailed(message: string) | NoStudents | Found(students: seq<Student>)

  /** The class check and the students query, `.eq('grade', grade).eq('class_number', classNumber)`. */
  function StepFor(className: string, rows: seq<Student>, queryError: Option<string>): (r: Step)
    ensures r.Found? ==> r.students != []
    ensures r == BadClass <==> ClassOf(className).None?
    ensures r.QueryFailed? <==> ClassOf(className).Some? && queryError.Some?
  {
    match ClassOf(className)
    case None => BadClass
    case Some((g, c)) =>
      if queryError.Some? then QueryFailed(queryError.value)
      else
        var students := ClassRows(rows, g, c);
        if students == [] then NoStudents else Found(students)
  }

  /** The rows of the class, in table order. */
  function ClassRows(rows: seq<Student>, grade: int, classNumber: int): (r: seq<Student>)
    ensures forall s :: s in r <==> s in rows && Students.InClass(s, grade, classNumber)
  {
    Sorting.FilterMembers(rows, s => Students.InClass(s, grade, classNumber));
    Sorting.Filter(rows, s => Students.InClass(s, grade, classNumber))
  }

  /** A class that is found holds exactly the students of the table in that grade and class. */
  lemma StepForFound(className: string, rows: seq<Student>)
    requires ClassOf(className).Some?
    ensures var g := ClassOf(className).value.0;
      var c := ClassOf(className).value.1;
      && (StepFor(className, rows, None).Found? <==> exists s :: s in rows && Students.InClass(s, g, c))
      && (StepFor(className, rows, None).Found? ==> StepFor(className, rows, None).students == ClassRows(rows, g, c))
  {
    var g := ClassOf(className).value.0;
    var c := ClassOf(className).value.1;
    var r := ClassRows(rows, g, c);
    if exists s :: s in rows && Students.InClass(s, g, c) {
      var s :| s in rows && Students.InClass(s, g, c);
      assert s in r;
    }
  }

  /** The outcomes of the three writes of one class, whose errors the tab does not look at. */
  datatype Writes = Writes(assignmentsOk: bool, deactivateOk: bool, insertOk: bool)

  /** A shuffle reorders and nothing else, as `sort(() => Math.random() - 0.5)` does. */
  ghost predicate Reorders(shuffle: seq<string> -> seq<string>) {
    forall xs :: multiset(shuffle(xs)) == multiset(xs)
  }

  /** The shuffled roles of a class with `n` students. */
  function ShuffledRoles(session: RoleSession, n: nat, shuffle: seq<string> -> seq<string>): seq<string>
    requires session.roles != []
  {
    shuffle(RoleArray(session.roles, n))
  }

  /** The results line of a class that got its roles. */
  function AssignedList(students: seq<Student>, roles: seq<string>): (r: seq<Assigned>)
    requires |roles| == |students|
    ensures |r| == |students| && forall i :: 0 <= i < |r| ==> r[i] == Assigned(students[i].id, students[i].name, roles[i])
  {
    seq(|students|, i requires 0 <= i < |students| => Assigned(students[i].id, students[i].name, roles[i]))
  }

  /** The roles handed to a class are the role array reordered: each role as often as its count. */
  lemma ShuffledRolesSpec(session: RoleSession, n: nat, shuffle: seq<string> -> seq<string>)
    requires session.roles != [] && Reorders(shuffle)
    ensures var s := ShuffledRoles(session, n, shuffle);
      |s| == n && multiset(s) == multiset(RoleArray(session.roles, n))
  {
    var a := RoleArray(session.roles, n);
    RoleArrayLength(session.roles, n);
    assert multiset(shuffle(a)) == multiset(a);
    assert |multiset(shuffle(a))| == |shuffle(a)|;
  }

  /** The hand-out rows written for a class. */
  function AssignmentRows(session: RoleSession, className: string, students: seq<Student>, roles: seq<string>): (r: seq<Assignment>)
    requires |roles| == |students|
    ensures |r| == |students|
    ensures forall i :: 0 <= i < |r| ==>
      r[i] == Assignment(session.id, session.name, className, students[i].id, students[i].name, roles[i])
  {
    seq(|students|, i requires 0 <= i < |students| => Assignment(session.id, session.name, className, students[i].id, students[i].name, roles[i]))
  }

  /** The new active role rows of a class. */
  function RoleRows(students: seq<Student>, roles: seq<string>): (r: seq<StudentRole>)
    requires |roles| == |students|
    ensures |r| == |students|
    ensures forall i :: 0 <= i < |r| ==> r[i] == StudentRole(students[i].id, students[i].name, roles[i], true)
  {
    seq(|students|, i requires 0 <= i < |students| => StudentRole(students[i].id, students[i].name, roles[i], true))
  }

  /** `.update({ is_active: false }).in('student_id', ids)`: the rows of those students become
      inactive, the others stay as they are. */
  function Deactivated(rows: seq<StudentRole>, ids: set<string>): (r: seq<StudentRole>)
    ensures |r| == |rows|
    ensures forall i :: 0 <= i < |r| ==> r[i] == if rows[i].studentId in ids then rows[i].(isActive := false) else rows[i]
  {
    seq(|rows|, i requires 0 <= i < |rows| => if rows[i].studentId in ids then rows[i].(isActive := false) else rows[i])
  }

  function IdsOf(students: seq<Student>): set<string> {
    set i | 0 <= i < |students| :: students[i].id
  }

  /** The two tables the hand-out writes. */
  class RoleTables {
    var assignments: seq<Assignment>
    var studentRoles: seq<StudentRole>

    constructor ()
      ensures assignments == [] && studentRoles == []
    {
      assignments, studentRoles := [], [];
    }

    /** The writes for one class: the hand-out rows, the deactivation of the class's old roles
        and the new active roles, each taking effect only when its write succeeds. */
    method WriteClass(session: RoleSession, className: string, students: seq<Student>, roles: seq<string>, w: Writes)
      requires |roles| == |students|
      modifies this
      ensures assignments == old(assignments) + (if w.assignmentsOk then AssignmentRows(session, className, students, roles) else [])
      ensures studentRoles == (if w.deactivateOk then Deactivated(old(studentRoles), IdsOf(students)) else old(studentRoles))
                              + (if w.insertOk then RoleRows(students, roles) else [])
    {
      if w.assignmentsOk {
        assignments := assignments + AssignmentRows(session, className, students, roles);
      }
      if w.deactivateOk {
        studentRoles := Deactivated(studentRoles, IdsOf(students));
      }
      if w.insertOk {
        studentRoles := studentRoles + RoleRows(students, roles);
      }
    }
  }

  /** When every write of a class succeeds, each of its students' earlier roles is inactive,
      each student has a new active row with the role handed out, and the rows of other
      students are as they were. */
  lemma WriteClassEffect(rows: seq<StudentRole>, students: seq<Student>, roles: seq<string>)
    requires |roles| == |students|
    ensures var r := Deactivated(rows, IdsOf(students)) + RoleRows(students, roles);
      && |r| == |rows| + |students|
      && (forall i :: 0 <= i < |rows| && rows[i].studentId in IdsOf(students) ==> !r[i].isActive)
      && (forall i :: 0 <= i < |rows| && rows[i].studentId !in IdsOf(students) ==> r[i] == rows[i])
      && (forall i :: 0 <= i < |r| && r[i].isActive && r[i].studentId in IdsOf(students) ==> i >= |rows|)
      && (forall j :: 0 <= j < |students| ==> r[|rows| + j] == StudentRole(students[j].id, students[j].name, roles[j], true))
  {
  }

  /** The database answers and the shuffle of a hand-out: the students table, each class's
      query error (none when it succeeded), each class's write outcomes, and the shuffle. */
  datatype Env = Env(rows: seq<Student>, queryError: string -> Option<string>, writes: string -> Writes,
                     shuffle: seq<string> -> seq<string>)

  function StepOf(env: Env, className: string): Step {
    StepFor(className, env.rows, env.queryError(className))
  }

  /** The roles handed to the students of a class, in student order. */
  function HandOut(session: RoleSession, env: Env, students: seq<Student>): (r: seq<string>)
    requires session.roles != [] && Reorders(env.shuffle)
    ensures |r| == |students| && multiset(r) == multiset(RoleArray(session.roles, |students|))
  {
    ShuffledRolesSpec(session, |students|, env.shuffle);
    ShuffledRoles(session, |students|, env.shuffle)
  }

  /** With distinct role names, the role at `index` is handed to exactly its count of students. */
  lemma HandOutCounts(session: RoleSession, env: Env, students: seq<Student>, index: nat)
    requires session.roles != [] && Reorders(env.shuffle)
    requires index < |session.roles| && Sorting.NoDup(session.roles)
    ensures multiset(HandOut(session, env, students))[session.roles[index]] == RoleCount(|students|, |session.roles|, index)
  {
    RoleArrayCounts(session.roles, |students|, index);
  }

  /** The result line of one class; `None` when the class has students but no session was found,
      where reading the session's roles throws and the whole hand-out stops. */
  function ResultOf(session: Option<RoleSession>, env: Env, className: string): (r: Option<ClassResult>)
    requires session.Some? ==> session.value.roles != []
    requires Reorders(env.shuffle)
    ensures r.None? <==> session.None? && StepOf(env, className).Found?
    ensures r.Some? ==> r.value.className == className
    ensures r.Some? && r.value.ClassDone? ==> StepOf(env, className).Found?
  {
    match StepOf(env, className)
    case BadClass => Some(ClassError(className, BadClassName))
    case QueryFailed(m) => Some(ClassError(className, QueryFailedPrefix + m))
    case NoStudents => Some(ClassError(className, NoStudentsInClass))
    case Found(students) =>
      if session.None? then None
      else Some(ClassDone(className, AssignedList(students, HandOut(session.value, env, students))))
  }

  /** The results of the classes in order, or `None` when the hand-out stopped. */
  function ResultsOf(session: Option<RoleSession>, env: Env, classes: seq<string>): (r: Option<seq<ClassResult>>)
    requires session.Some? ==> session.value.roles != []
    requires Reorders(env.shuffle)
    ensures session.Some? ==> r.Some?
    ensures r.Some? ==> |r.value| == |classes| && forall k :: 0 <= k < |classes| ==> r.value[k].className == classes[k]
  {
    if classes == [] then Some([])
    else
      var init := ResultsOf(session, env, classes[..|classes| - 1]);
      var last := ResultOf(session, env, classes[|classes| - 1]);
      if init.None? || last.None? then None
      else
        var rs := init.value + [last.value];
        assert forall k :: 0 <= k < |classes| - 1 ==> rs[k] == init.value[k];
        Some(rs)
  }

  /** `role_assignments` after the hand-out to one more class. */
  function AssignmentsStep(prev: seq<Assignment>, session: RoleSession, env: Env, c: string): seq<Assignment>
    requires session.roles != [] && Reorders(env.shuffle)
  {
    match StepOf(env, c)
    case Found(students) =>
      prev + (if env.writes(c).assignmentsOk then AssignmentRows(session, c, students, HandOut(session, env, students)) else [])
    case _ => prev
  }

  /** `student_roles` after the hand-out to one more class. */
  function RolesStep(prev: seq<StudentRole>, session: RoleSession, env: Env, c: string): seq<StudentRole>
    requires session.roles != [] && Reorders(env.shuffle)
  {
    match StepOf(env, c)
    case Found(students) =>
      var w := env.writes(c);
      (if w.deactivateOk then Deactivated(prev, IdsOf(students)) else prev)
      + (if w.insertOk then RoleRows(students, HandOut(session, env, students)) else [])
    case _ => prev
  }

  /** `role_assignments` after the hand-out to the classes, in order. */
  function AssignmentsAfter(rows: seq<Assignment>, session: RoleSession, env: Env, classes: seq<string>): seq<Assignment>
    requires session.roles != [] && Reorders(env.shuffle)
  {
    if classes == [] then rows
    else AssignmentsStep(AssignmentsAfter(rows, session, env, classes[..|classes| - 1]), session, env, classes[|classes| - 1])
  }

  /** `student_roles` after the hand-out to the classes, in order. */
  function RolesAfter(rows: seq<StudentRole>, session: RoleSession, env: Env, classes: seq<string>): seq<StudentRole>
    requires session.roles != [] && Reorders(env.shuffle)
  {
    if classes == [] then rows
    else RolesStep(RolesAfter(rows, session, env, classes[..|classes| - 1]), session, env, classes[|classes| - 1])
  }

  /** The tables after one class, by what its step found. */
  lemma StepTables(assignments: seq<Assignment>, roles: seq<StudentRole>, session: RoleSession, env: Env, c: string)
    requires session.roles != [] && Reorders(env.shuffle)
    ensures !StepOf(env, c).Found? ==> AssignmentsStep(assignments, session, env, c) == assignments && RolesStep(roles, session, env, c) == roles
    ensures StepOf(env, c).Found? ==>
      var students := StepOf(env, c).students;
      var w := env.writes(c);
      && AssignmentsStep(assignments, session, env, c)
         == assignments + (if w.assignmentsOk then AssignmentRows(session, c, students, HandOut(session, env, students)) else [])
      && RolesStep(roles, session, env, c)
         == (if w.deactivateOk then Deactivated(roles, IdsOf(students)) else roles)
            + (if w.insertOk then RoleRows(students, HandOut(session, env, students)) else [])
  {
  }

  /** One more class of the loop: the results and both tables advance by that class. */
  lemma AfterSnoc(session: Option<RoleSession>, env: Env, classes: seq<string>, k: nat,
                  assignments: seq<Assignment>, roles: seq<StudentRole>)
    requires session.Some? ==> session.value.roles != []
    requires Reorders(env.shuffle) && k < |classes|
    ensures var init := ResultsOf(session, env, classes[..k]);
      var last := ResultOf(session, env, classes[k]);
      ResultsOf(session, env, classes[..k + 1]) == if init.None? || last.None? then None else Some(init.value + [last.value])
    ensures session.Some? ==>
      && AssignmentsAfter(assignments, session.value, env, classes[..k + 1])
         == AssignmentsStep(AssignmentsAfter(assignments, session.value, env, classes[..k]), session.value, env, classes[k])
      && RolesAfter(roles, session.value, env, classes[..k + 1])
         == RolesStep(RolesAfter(roles, session.value, env, classes[..k]), session.value, env, classes[k])
  {
    assert classes[..k + 1][..k] == classes[..k];
  }

  /** The hand-out only adds records: the earlier ones stay as they were, and every added one
      belongs to the session and to one of the classes. */
  lemma {:induction false} AssignmentsAfterExtends(rows: seq<Assignment>, session: RoleSession, env: Env, classes: seq<string>)
    requires session.roles != [] && Reorders(env.shuffle)
    ensures var r := AssignmentsAfter(rows, session, env, classes);
      && |rows| <= |r| && r[..|rows|] == rows
      && forall i :: |rows| <= i < |r| ==> r[i].sessionId == session.id && r[i].className in classes
  {
    if classes != [] {
      var init := classes[..|classes| - 1];
      AssignmentsAfterExtends(rows, session, env, init);
      var prev := AssignmentsAfter(rows, session, env, init);
      assert forall x :: x in init ==> x in classes;
      assert prev[..|rows|] == rows;
    }
  }

  /** `.delete().eq('session_id', sessionId)`: the records of the other sessions, in order. */
  function OtherSessions(assignments: seq<Assignment>, sessionId: int): (r: seq<Assignment>)
    ensures forall a :: a in r <==> a in assignments && a.sessionId != sessionId
  {
    Sorting.FilterMembers(assignments, (a: Assignment) => a.sessionId != sessionId);
    Sorting.Filter(assignments, (a: Assignment) => a.sessionId != sessionId)
  }

  /** The students of a session's records, `.map(a => a.student_id).filter(Boolean)`. */
  function SessionStudents(assignments: seq<Assignment>, sessionId: int): set<string> {
    set i | 0 <= i < |assignments| && assignments[i].sessionId == sessionId && assignments[i].studentId != "" :: assignments[i].studentId
  }

  /** The loop of assignRoles over the classes: each class's result line is collected and a
      class with students is written to both tables; a class with students and no session
      stops the loop. */
  method HandOutClasses(tables: RoleTables, session: Option<RoleSession>, env: Env, classes: seq<string>)
    returns (res: Option<seq<ClassResult>>)
    requires session.Some? ==> session.value.roles != []
    requires Reorders(env.shuffle)
    modifies tables
    ensures res == ResultsOf(session, env, classes)
    ensures session.Some? ==> tables.assignments == AssignmentsAfter(old(tables.assignments), session.value, env, classes)
    ensures session.Some? ==> tables.studentRoles == RolesAfter(old(tables.studentRoles), session.value, env, classes)
    ensures session.None? ==> tables.assignments == old(tables.assignments) && tables.studentRoles == old(tables.studentRoles)
  {
    var acc: seq<ClassResult> := [];
    for k := 0 to |classes|
      invariant ResultsOf(session, env, classes[..k]) == Some(acc)
      invariant session.Some? ==> tables.assignments == AssignmentsAfter(old(tables.assignments), session.value, env, classes[..k])
      invariant session.Some? ==> tables.studentRoles == RolesAfter(old(tables.studentRoles), session.value, env, classes[..k])
      invariant session.None? ==> tables.assignments == old(tables.assignments) && tables.studentRoles == old(tables.studentRoles)
    {
      var c := classes[k];
      AfterSnoc(session, env, classes, k, old(tables.assignments), old(tables.studentRoles));
      var step := StepOf(env, c);
      if step.Found? && session.None? {
        ResultsStopped(session, env, classes, k + 1);
        return None;
      }
      var r := ResultOf(session, env, c);
      if session.Some? {
        StepTables(tables.assignments, tables.studentRoles, session.value, env, c);
      }
      if step.Found? {
        var roles := HandOut(session.value, env, step.students);
        tables.WriteClass(session.value, c, step.students, roles, env.writes(c));
      }
      acc := acc + [r.value];
    }
    assert classes[..|classes|] == classes;
    return Some(acc);
  }

  /** What assignRoles ends in. */
  datatype AssignOutcome = NoSessionSelected | NoClassesGiven | Aborted | AssignDone

  /** What cancelAssignments ends in. */
  datatype CancelOutcome = NoSessionToCancel | NotConfirmed | FetchFailed | DeactivateFailed | DeleteFailed | Cancelled

  /** The state of the tab. */
  class RoleTab {
    var sessions: seq<RoleSession>
    var selected: Option<int>
    var classInput: string
    var results: seq<ClassResult>
    var editing: Option<int>

    predicate Valid()
      reads this
    {
      SessionsValid(sessions)
    }

    constructor (sessions: seq<RoleSession>)
      requires SessionsValid(sessions)
      ensures Valid() && this.sessions == sessions && selected.None? && classInput == "" && results == [] && editing.None?
    {
      this.sessions := sessions;
      selected, classInput, results, editing := None, "", [], None;
    }

    /** saveSession: a form that passes the checks is stored with its valid roles, listed first
        (the newest), and the form is cleared; otherwise nothing changes. A failed insert reports
        the client's error message after the prefix. */
    method SaveSession(form: ItemList.ItemForm, newId: int, insertError: Option<string>) returns (r: Result<RoleSession, string>)
      requires Valid()
      modifies this, form
      ensures Valid()
      ensures var c := old(form.Checked(NoName, NoRoles));
        && (c.Err? ==> r == Err(c.error))
        && (c.Ok? && insertError.Some? ==> r == Err(SaveFailedPrefix + insertError.value))
        && (c.Ok? && insertError.None? ==> r == Ok(RoleSession(newId, old(form.name), c.value)))
      ensures r.Ok? ==> sessions == [r.value] + old(sessions) && form.name == "" && form.items == [""]
      ensures r.Err? ==> sessions == old(sessions) && form.name == old(form.name) && form.items == old(form.items)
      ensures selected == old(selected) && classInput == old(classInput) && results == old(results) && editing == old(editing)
    {
      var c := form.Checked(NoName, NoRoles);
      if c.Err? {
        return Err(c.error);
      }
      if insertError.Some? {
        return Err(SaveFailedPrefix + insertError.value);
      }
      r := Ok(RoleSession(newId, form.name, c.value));
      sessions := [r.value] + sessions;
      form.name, form.items := "", [""];
    }

    /** startEdit: the edit form gets a copy of the session's name and roles. */
    method StartEdit(form: ItemList.ItemForm, session: RoleSession)
      requires Valid()
      modifies this, form
      ensures Valid() && sessions == old(sessions)
      ensures editing == Some(session.id) && form.name == session.name && form.items == session.roles
      ensures selected == old(selected) && classInput == old(classInput) && results == old(results)
    {
      editing := Some(session.id);
      form.name, form.items := session.name, session.roles;
    }

    /** saveEdit: a form that passes the checks replaces the name and roles of the session being
        edited and ends the editing; otherwise nothing changes. A failed update reports the
        client's error message after the prefix. */
    method SaveEdit(form: ItemList.ItemForm, updateError: Option<string>) returns (r: Result<seq<string>, string>)
      requires Valid() && editing.Some?
      modifies this
      ensures Valid()
      ensures var c := form.Checked(NoName, NoRoles);
        && (c.Err? ==> r == Err(c.error))
        && (c.Ok? && updateError.Some? ==> r == Err(EditFailedPrefix + updateError.value))
        && (c.Ok? && updateError.None? ==> r == c)
      ensures r.Ok? ==> sessions == Edited(old(sessions), old(editing).value, form.name, r.value) && editing.None?
      ensures r.Err? ==> sessions == old(sessions) && editing == old(editing)
      ensures selected == old(selected) && classInput == old(classInput) && results == old(results)
    {
      var c := form.Checked(NoName, NoRoles);
      if c.Err? {
        return Err(c.error);
      }
      if updateError.Some? {
        return Err(EditFailedPrefix + updateError.value);
      }
      sessions := Edited(sessions, editing.value, form.name, c.value);
      editing := None;
      return c;
    }

    /** deleteSession: after confirmation and a successful delete, the sessions with that id are
        gone and the others keep their order. */
    method DeleteSession(id: int, confirmed: bool, deleteOk: bool)
      requires Valid()
      modifies this
      ensures Valid()
      ensures confirmed && deleteOk ==> sessions == Sorting.Filter(old(sessions), (s: RoleSession) => s.id != id)
      ensures !(confirmed && deleteOk) ==> sessions == old(sessions)
      ensures forall s :: s in sessions <==> s in old(sessions) && (confirmed && deleteOk ==> s.id != id)
      ensures selected == old(selected) && classInput == old(classInput) && results == old(results) && editing == old(editing)
    {
      if confirmed && deleteOk {
        Sorting.FilterMembers(sessions, (s: RoleSession) => s.id != id);
        sessions := Sorting.Filter(sessions, (s: RoleSession) => s.id != id);
      }
    }
  
    /** assignRoles: with a session selected and at least one class named, each class in turn
        is checked and queried, and a class with students gets the session's roles spread evenly
        and shuffled, one per student, written to both tables. A class with students and no
        session found stops everything before any write. */
    method AssignRoles(tables: RoleTables, env: Env) returns (outcome: AssignOutcome)
      requires Valid() && Reorders(env.shuffle)
      modifies this, tables
      ensures Valid() && sessions == old(sessions) && selected == old(selected)
      ensures classInput == old(classInput) && editing == old(editing)
      ensures selected.None? ==> outcome == NoSessionSelected
      ensures selected.Some? && ClassNames(classInput) == [] ==> outcome == NoClassesGiven
      ensures var session := if selected.Some? then FindSession(sessions, selected.value) else None;
        && (outcome == AssignDone <==> selected.Some? && ClassNames(classInput) != [] && ResultsOf(session, env, ClassNames(classInput)).Some?)
        && (outcome == AssignDone ==> results == ResultsOf(session, env, ClassNames(classInput)).value)
        && (outcome == Aborted ==> session.None?)
        && (selected.Some? && ClassNames(classInput) != [] && session.Some? ==>
              && tables.assignments == AssignmentsAfter(old(tables.assignments), session.value, env, ClassNames(classInput))
              && tables.studentRoles == RolesAfter(old(tables.studentRoles), session.value, env, ClassNames(classInput)))
        && (!(selected.Some? && ClassNames(classInput) != [] && session.Some?) ==>
              tables.assignments == old(tables.assignments) && tables.studentRoles == old(tables.studentRoles))
      ensures outcome != AssignDone ==> results == old(results)
    {
      if selected.None? {
        outcome := NoSessionSelected;
      } else {
        var session := FindSession(sessions, selected.value);
        var classes := ClassNames(classInput);
        if classes == [] {
          outcome := NoClassesGiven;
        } else {
          var res := HandOutClasses(tables, session, env, classes);
          if res.None? {
            outcome := Aborted;
          } else {
            results := res.value;
            outcome := AssignDone;
          }
        }
      }
    }

    /** cancelAssignments: after confirmation, the roles of the session's students are made
        inactive (when there are any) and then the session's records are deleted; a failed
        step stops there, and only a full success clears the results. */
    method CancelAssignments(tables: RoleTables, confirmed: bool, fetchOk: bool, updateOk: bool, deleteOk: bool)
      returns (outcome: CancelOutcome)
      modifies this, tables
      ensures sessions == old(sessions) && selected == old(selected) && classInput == old(classInput) && editing == old(editing)
      ensures selected.None? ==> outcome == NoSessionToCancel
      ensures selected.Some? && !confirmed ==> outcome == NotConfirmed
      ensures selected.Some? && confirmed && !fetchOk ==> outcome == FetchFailed
      ensures outcome in {NoSessionToCancel, NotConfirmed, FetchFailed, DeactivateFailed} ==>
        tables.assignments == old(tables.assignments) && tables.studentRoles == old(tables.studentRoles)
      ensures outcome in {DeleteFailed, Cancelled} ==>
        var ids := SessionStudents(old(tables.assignments), selected.value);
        tables.studentRoles == Deactivated(old(tables.studentRoles), ids)
      ensures outcome == DeactivateFailed <==>
        selected.Some? && confirmed && fetchOk && SessionStudents(old(tables.assignments), selected.value) != {} && !updateOk
      ensures outcome == Cancelled <==>
        selected.Some? && confirmed && fetchOk && (SessionStudents(old(tables.assignments), selected.value) == {} || updateOk) && deleteOk
      ensures outcome == DeleteFailed <==>
        selected.Some? && confirmed && fetchOk && (SessionStudents(old(tables.assignments), selected.value) == {} || updateOk) && !deleteOk
      ensures outcome == Cancelled ==>
        && tables.assignments == OtherSessions(old(tables.assignments), selected.value)
        && (forall a :: a in tables.assignments <==> a in old(tables.assignments) && a.sessionId != selected.value)
        && results == []
      ensures outcome != Cancelled ==> tables.assignments == old(tables.assignments) && results == old(results)
    {
      if selected.None? {
        return NoSessionToCancel;
      }
      if !confirmed {
        return NotConfirmed;
      }
      var sessionId := selected.value;
      if !fetchOk {
        return FetchFailed;
      }
      var ids := SessionStudents(tables.assignments, sessionId);
      if ids != {} {
        if !updateOk {
          return DeactivateFailed;
        }
        tables.studentRoles := Deactivated(tables.studentRoles, ids);
      } else {
        assert Deactivated(tables.studentRoles, ids) == tables.studentRoles;
      }
      if !deleteOk {
        return DeleteFailed;
      }
      tables.assignments := OtherSessions(tables.assignments, sessionId);
      results := [];
      return Cancelled;
    }
  }

  /** The results of a non-empty list stop when those of all but its last class stop. */
  lemma ResultsStep(session: Option<RoleSession>, env: Env, classes: seq<string>)
    requires session.Some? ==> session.value.roles != []
    requires Reorders(env.shuffle)
    requires classes != [] && ResultsOf(session, env, classes[..|classes| - 1]).None?
    ensures ResultsOf(session, env, classes).None?
  {
  }

  /** Once the results stop at one class, they stay stopped for the whole list. */
  lemma {:induction false} ResultsStopped(session: Option<RoleSession>, env: Env, classes: seq<string>, k: nat)
    requires session.Some? ==> session.value.roles != []
    requires Reorders(env.shuffle)
    requires k <= |classes| && ResultsOf(session, env, classes[..k]).None?
    ensures ResultsOf(session, env, classes).None?
    decreases |classes| - k
  {
    if k < |classes| {
      var next := classes[..k + 1];
      assert next != [] && next[..|next| - 1] == classes[..k];
      ResultsStep(session, env, next);
      ResultsStopped(session, env, classes, k + 1);
    } else {
      assert classes[..k] == classes;
    }
  }
}
