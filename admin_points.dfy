/** The teacher's points tab (src/modules/admin/AdminPointsTab.jsx): the class text checked before
    any lookup, the class's students with their points of the day, the editing values, the save of
    one student's points and the merge of a change pushed by the database. Database answers are
    inputs: the students table with whether the query succeeded, each student's points lookup, and
    whether the update succeeded. */
module AdminPoints {
  import opened Wrappers
  import opened Text
  import opened Database
  import Students

  const EmptyClass := "❌ 학급을 입력해주세요 (예: 3-1)"
  const BadClassFormat := "❌ 올바른 형식으로 입력해주세요 (예: 3-1, 4-2)"
  const BadGrade := "❌ 학년은 3, 4, 6만 가능합니다"
  const FetchFailed := "❌ 학급 조회 중 오류가 발생했습니다."

  function NoStudents(classInfo: string): string {
    "⚠️ " + classInfo + " 학급에 등록된 학생이 없습니다."
  }

  function Found(classInfo: string, count: nat): string {
    "✅ " + classInfo + " 학급 " + NatToString(count) + "명 조회 완료"
  }

  function UpdatedMessage(name: string, id: string, points: int): string {
    "✅ " + name + "(" + id + ")의 포인트가 " + IntToString(points) + "로 업데이트되었습니다."
  }

  /** The grade and class read from the class text; the class is NaN when its part has no
      leading digits. */
  datatype ClassQuery = ClassQuery(grade: int, classNumber: JsNum)

  /** The checks of handleFetchClass: a blank text (one that `trim()` empties, see
      `Text.TrimEmptyIffBlank`), a text that is not two parts around one '-', and a grade other
      than 3, 4 or 6 are refused before any lookup. */
  function ParseClassQuery(classInfo: string): (r: Result<ClassQuery, string>)
    ensures IsBlank(classInfo) ==> r == Err(EmptyClass)
    ensures !IsBlank(classInfo) && |Split(classInfo, '-')| != 2 ==> r == Err(BadClassFormat)
    ensures r.Ok? <==>
      && !IsBlank(classInfo) && |Split(classInfo, '-')| == 2
      && ParseInt(Split(classInfo, '-')[0]) in {Num(3), Num(4), Num(6)}
    ensures r.Ok? ==>
      && Num(r.value.grade) == ParseInt(Split(classInfo, '-')[0])
      && r.value.classNumber == ParseInt(Split(classInfo, '-')[1])
    ensures r.Err? && !IsBlank(classInfo) && |Split(classInfo, '-')| == 2 ==> r.error == BadGrade
  {
    if IsBlank(classInfo) then Err(EmptyClass)
    else
      var parts := Split(classInfo, '-');
      if |parts| != 2 then Err(BadClassFormat)
      else
        var grade := ParseInt(parts[0]);
        if grade !in {Num(3), Num(4), Num(6)} then Err(BadGrade)
        else Ok(ClassQuery(grade.value, ParseInt(parts[1])))
  }

  /** "G-C" with G the digit 3, 4 or 6 and C digits is the query for that grade and class;
      another grade digit is refused with the grade message. */
  lemma ClassQueryDigits(g: string, c: string)
    requires |g| == 1 && IsDigit(g[0]) && c != [] && AllDigits(c)
    ensures var r := ParseClassQuery(g + "-" + c);
      && (DigitVal(g[0]) in {3, 4, 6} ==> r == Ok(ClassQuery(DigitVal(g[0]), Num(DigitsValue(c)))))
      && (DigitVal(g[0]) !in {3, 4, 6} ==> r == Err(BadGrade))
  {
    DashedParts(g, c);
    assert g == [g[0]];
    ParseIntChar(g[0]);
    ParseIntDigits(c);
    ClassQueryOfParts(g + "-" + c, g, c, DigitVal(g[0]), DigitsValue(c));
  }

  lemma ClassQueryOfParts(s: string, g: string, c: string, gv: int, cv: int)
    requires !IsBlank(s) && Split(s, '-') == [g, c]
    requires ParseInt(g) == Num(gv) && ParseInt(c) == Num(cv)
    ensures var r := ParseClassQuery(s);
      && (gv in {3, 4, 6} ==> r == Ok(ClassQuery(gv, Num(cv))))
      && (gv !in {3, 4, 6} ==> r == Err(BadGrade))
  {
  }

  lemma DashedParts(g: string, c: string)
    requires g != [] && AllDigits(g) && AllDigits(c)
    ensures var s := g + "-" + c; !IsBlank(s) && Split(s, '-') == [g, c]
  {
    var s := g + "-" + c;
    assert '-' !in g && '-' !in c;
    SplitAround(g, c, '-');
    assert g + ['-'] + c == s;
    assert !IsSpace(s[0]);
  }

  /** A text without '-', or with two of them, is refused for its format. */
  lemma ClassQueryFormat(classInfo: string)
    requires !IsBlank(classInfo) && '-' !in classInfo
    ensures ParseClassQuery(classInfo) == Err(BadClassFormat)
  {
    SplitNoSep(classInfo, '-');
  }

  /** getStudentsByClass for a query that passed the checks. A NaN class cannot be compared with
      an integer column, so its query fails like a query error. */
  function ClassStudents(rows: seq<Student>, q: ClassQuery, queryOk: bool): (r: Result<seq<Student>, string>)
    ensures r.Ok? <==> queryOk && q.classNumber.Num?
    ensures r.Ok? ==> forall s :: s in r.value <==> s in rows && Students.InClass(s, q.grade, q.classNumber.value)
  {
    if q.classNumber.NaN? then Err(Students.LoadError)
    else
      Students.StudentsByClassSpec(rows, q.grade, q.classNumber.value);
      Students.GetStudentsByClass(rows, q.grade, q.classNumber.value, queryOk)
  }

  /** What getDailyPoints gave for one student: an exception, or the row (absent when none). */
  datatype PointsLookup = LookupFailed | LookupDone(row: Option<PointsRow>)

  /** A student of the class with the points shown for them. */
  datatype PointsEntry = PointsEntry(student: Student, currentPoints: int, maxPoints: int)

  /** `{ ...student, current_points: points?.current_points || 0, max_points: points?.max_points || 20 }`,
      or 0 of 20 when the lookup threw. */
  function EntryOf(s: Student, lookup: PointsLookup): (r: PointsEntry)
    ensures r.student == s && r.maxPoints != 0
    ensures lookup.LookupFailed? || lookup.row.None? ==> r.currentPoints == 0 && r.maxPoints == MaxDailyPoints
    ensures lookup.LookupDone? && lookup.row.Some? ==>
      && r.currentPoints == lookup.row.value.currentPoints
      && (lookup.row.value.maxPoints != 0 ==> r.maxPoints == lookup.row.value.maxPoints)
  {
    match lookup
    case LookupFailed => PointsEntry(s, 0, MaxDailyPoints)
    case LookupDone(row) =>
      var current := if row.Some? && row.value.currentPoints != 0 then row.value.currentPoints else 0;
      var max := if row.Some? && row.value.maxPoints != 0 then row.value.maxPoints else MaxDailyPoints;
      PointsEntry(s, current, max)
  }

  /** The Promise.all over the class: one entry per student, in order, each from that student's
      own lookup, so one failed lookup affects no other student. */
  function WithPoints(students: seq<Student>, lookup: string -> PointsLookup): (r: seq<PointsEntry>)
    ensures |r| == |students|
    ensures forall i :: 0 <= i < |r| ==> r[i] == EntryOf(students[i], lookup(students[i].id))
  {
    seq(|students|, i requires 0 <= i < |students| => EntryOf(students[i], lookup(students[i].id)))
  }

  /** A stored row within the daily bounds is shown as it is. */
  lemma EntryOfStoredRow(s: Student, row: PointsRow)
    requires 0 <= row.currentPoints <= MaxDailyPoints && row.maxPoints == MaxDailyPoints
    ensures EntryOf(s, LookupDone(Some(row))) == PointsEntry(s, row.currentPoints, row.maxPoints)
  {
  }

  predicate InRange(points: int) {
    0 <= points <= MaxDailyPoints
  }

  /** The ids of the entries. */
  function Ids(entries: seq<PointsEntry>): set<string> {
    set i | 0 <= i < |entries| :: entries[i].student.id
  }

  /** The editing map after a lookup: each student's id with the current points shown, the last
      entry winning for an id listed twice. */
  function EditingOf(entries: seq<PointsEntry>): (r: map<string, int>)
    ensures r.Keys == Ids(entries)
  {
    if entries == [] then map[]
    else
      var n := |entries| - 1;
      assert Ids(entries) == Ids(entries[..n]) + {entries[n].student.id} by {
        assert forall i :: 0 <= i < n ==> entries[..n][i] == entries[i];
      }
      EditingOf(entries[..n])[entries[n].student.id := entries[n].currentPoints]
  }

  /** Each student's editing value is the points shown in the last entry with their id. */
  lemma {:induction false} EditingOfLast(entries: seq<PointsEntry>, i: nat)
    requires i < |entries|
    requires forall j :: i < j < |entries| ==> entries[j].student.id != entries[i].student.id
    ensures EditingOf(entries)[entries[i].student.id] == entries[i].currentPoints
  {
    var n := |entries| - 1;
    if i < n {
      assert entries[..n][i] == entries[i];
      EditingOfLast(entries[..n], i);
    }
  }

  /** The entries with this student's current points replaced, everything else kept. */
  function SetCurrent(entries: seq<PointsEntry>, id: string, points: int): (r: seq<PointsEntry>)
    ensures |r| == |entries|
    ensures forall i :: 0 <= i < |r| ==>
      && r[i].student == entries[i].student && r[i].maxPoints == entries[i].maxPoints
      && r[i].currentPoints == (if entries[i].student.id == id then points else entries[i].currentPoints)
  {
    seq(|entries|, i requires 0 <= i < |entries| =>
      if entries[i].student.id == id then entries[i].(currentPoints := points) else entries[i])
  }

  /** Setting one student's points twice keeps only the second, and setting them to what they
      already are changes nothing. */
  lemma SetCurrentTwice(entries: seq<PointsEntry>, id: string, p: int, q: int)
    ensures SetCurrent(SetCurrent(entries, id, p), id, q) == SetCurrent(entries, id, q)
    ensures (forall i :: 0 <= i < |entries| && entries[i].student.id == id ==> entries[i].currentPoints == p)
      ==> SetCurrent(entries, id, p) == entries
  {
  }

  /** What handleUpdateStudent ends in. */
  datatype UpdateOutcome = OutOfRange | UpdateFailed | Updated

  /** The realtime event kinds the tab reacts to among `payload.eventType`. */
  datatype ChangeKind = Insert | Update | Delete

  /** The state of the tab. */
  class PointsPanel {
    var classInfo: string
    var students: seq<PointsEntry>
    var editing: map<string, int>
    var message: string

    constructor (classInfo: string)
      ensures this.classInfo == classInfo && students == [] && editing == map[] && message == ""
    {
      this.classInfo := classInfo;
      students, editing, message := [], map[], "";
    }

    /** handleFetchClass: a refused class text only sets its message; otherwise the class is
        looked up, and the students with their points replace the list and reset the editing
        values, or an empty or failed lookup empties the list. */
    method HandleFetchClass(rows: seq<Student>, queryOk: bool, lookup: string -> PointsLookup)
      modifies this
      ensures classInfo == old(classInfo)
      ensures var q := ParseClassQuery(classInfo);
        && (q.Err? ==> message == q.error && students == old(students) && editing == old(editing))
        && (q.Ok? ==>
              var found := ClassStudents(rows, q.value, queryOk);
              && (found.Err? ==> message == FetchFailed && students == [] && editing == old(editing))
              && (found.Ok? && found.value == [] ==> message == NoStudents(classInfo) && students == [] && editing == old(editing))
              && (found.Ok? && found.value != [] ==>
                    && students == WithPoints(found.value, lookup)
                    && editing == EditingOf(students)
                    && message == Found(classInfo, |found.value|)))
    {
      var q := ParseClassQuery(classInfo);
      if q.Err? {
        message := q.error;
        return;
      }
      ShowClass(ClassStudents(rows, q.value, queryOk), lookup);
    }

    /** The rest of handleFetchClass once the class has been looked up. */
    method ShowClass(found: Result<seq<Student>, string>, lookup: string -> PointsLookup)
      modifies this
      ensures classInfo == old(classInfo)
      ensures found.Err? ==> message == FetchFailed && students == [] && editing == old(editing)
      ensures found.Ok? && found.value == [] ==> message == NoStudents(classInfo) && students == [] && editing == old(editing)
      ensures found.Ok? && found.value != [] ==>
        && students == WithPoints(found.value, lookup)
        && editing == EditingOf(students)
        && message == Found(classInfo, |found.value|)
    {
      if found.Err? {
        message := FetchFailed;
        students := [];
        return;
      }
      if found.value == [] {
        message := NoStudents(classInfo);
        students := [];
        return;
      }
      students := WithPoints(found.value, lookup);
      editing := EditingOf(students);
      message := Found(classInfo, |found.value|);
    }

    /** handlePointsChange: a value that parses to an integer from 0 to 20 becomes this
        student's editing value; anything else is ignored. */
    method HandlePointsChange(studentId: string, value: string)
      modifies this
      ensures var p := ParseInt(value);
        && (p.Num? && InRange(p.value) ==> editing == old(editing)[studentId := p.value])
        && (!(p.Num? && InRange(p.value)) ==> editing == old(editing))
      ensures (forall id :: id in old(editing) ==> InRange(old(editing)[id])) ==> forall id :: id in editing ==> InRange(editing[id])
      ensures students == old(students) && classInfo == old(classInfo) && message == old(message)
    {
      var points := ParseInt(value);
      if points.NaN? || points.value < 0 || points.value > MaxDailyPoints {
        return;
      }
      editing := editing[studentId := points.value];
    }

    /** handleUpdateStudent: a missing or out-of-range editing value is refused; after a
        successful update only this student's shown points change, to the saved value. */
    method HandleUpdateStudent(studentId: string, name: string, updateOk: bool) returns (outcome: UpdateOutcome)
      modifies this
      ensures outcome == OutOfRange <==> studentId !in editing || !InRange(editing[studentId])
      ensures outcome == Updated <==> studentId in editing && InRange(editing[studentId]) && updateOk
      ensures outcome == Updated ==>
        && students == SetCurrent(old(students), studentId, editing[studentId])
        && message == UpdatedMessage(name, studentId, editing[studentId])
      ensures outcome != Updated ==> students == old(students) && message == old(message)
      ensures editing == old(editing) && classInfo == old(classInfo)
    {
      if studentId !in editing || editing[studentId] < 0 || editing[studentId] > MaxDailyPoints {
        return OutOfRange;
      }
      var newPoints := editing[studentId];
      if !updateOk {
        return UpdateFailed;
      }
      students := SetCurrent(students, studentId, newPoints);
      message := UpdatedMessage(name, studentId, newPoints);
      return Updated;
    }

    /** The realtime callback: an insert or update of a row of a student already in the list
        sets that student's shown and editing points; any other event changes nothing. */
    method OnPointsChange(kind: ChangeKind, studentId: string, currentPoints: int)
      modifies this
      ensures var listed := exists i :: 0 <= i < |old(students)| && old(students)[i].student.id == studentId;
        && (kind != Delete && listed ==>
              students == SetCurrent(old(students), studentId, currentPoints)
              && editing == old(editing)[studentId := currentPoints])
        && (!(kind != Delete && listed) ==> students == old(students) && editing == old(editing))
      ensures classInfo == old(classInfo) && message == old(message)
    {
      if kind == Delete {
        return;
      }
      var listed := exists i :: 0 <= i < |students| && students[i].student.id == studentId;
      if listed {
        students := SetCurrent(students, studentId, currentPoints);
        editing := editing[studentId := currentPoints];
      }
    }
  }
}
