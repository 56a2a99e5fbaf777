/** The learning records of a class (src/services/learningRecordService.js): the latest record
    of each student, the teacher's AI text, approval and deletion, and the export rows. Every
    database call is a boolean outcome parameter; an ordered query is a stable sort of the table
    by the query's order. */
module LearningRecords {
  import opened Wrappers
  import opened Text
  import opened Database
  import Sorting
  import Students

  const UnknownName := "알 수 없음"
  const LoadError := "배움기록을 불러올 수 없습니다."
  const UpdateError := "배움기록을 수정할 수 없습니다."

  /** A row of `learning_records`; `approvedAt` is the approval instant in milliseconds. */
  datatype LearningRecord = LearningRecord(
    recordId: int, studentId: string, recordDate: string,
    coreLearning: Option<string>, learningProcess: seq<string>, thoughts: Option<string>,
    isSubmitted: bool, aiText: Option<string>, isApproved: bool, approvedAt: Option<int>)

  /** `record_id` is the primary key. */
  predicate UniqueRecordIds(rows: seq<LearningRecord>) {
    forall i, j :: 0 <= i < j < |rows| ==> rows[i].recordId != rows[j].recordId
  }

  class LearningRecordsTable {
    var rows: seq<LearningRecord>
    var nextId: int

    /** Ids are unique and below the next id the table hands out. */
    predicate Valid()
      reads this
    {
      UniqueRecordIds(rows) && forall x :: x in rows ==> x.recordId < nextId
    }

    constructor ()
      ensures rows == [] && Valid()
    {
      rows := [];
      nextId := 1;
    }
  }

  /** `student?.name || '알 수 없음'` with `student` the first roster row of that id. */
  function RosterName(roster: seq<Student>, id: string): (r: string)
    ensures r != ""
    ensures (forall s :: s in roster ==> s.id != id) ==> r == UnknownName
    ensures r == UnknownName || exists s :: s in roster && s.id == id && s.name == r
  {
    if roster == [] then UnknownName
    else if roster[0].id == id then (if roster[0].name == "" then UnknownName else roster[0].name)
    else RosterName(roster[1..], id)
  }

  /** With one roster row per id, the name is that row's name, or the unknown name when it is
      empty. */
  lemma RosterNameOf(roster: seq<Student>, s: Student)
    requires UniqueIds(roster) && s in roster
    ensures RosterName(roster, s.id) == if s.name == "" then UnknownName else s.name
  {
    if roster[0] != s {
      Students.UniqueTail(roster);
      RosterNameOf(roster[1..], s);
    }
  }

  /** `.order('student_id').order('record_date', { ascending: false })`. */
  predicate ByStudentThenDateDesc(a: LearningRecord, b: LearningRecord) {
    if a.studentId != b.studentId then LexLe(a.studentId, b.studentId) else LexLe(b.recordDate, a.recordDate)
  }

  lemma ByStudentThenDateDescIsOrder()
    ensures Sorting.Total(ByStudentThenDateDesc) && Sorting.Transitive(ByStudentThenDateDesc)
  {
    forall a, b ensures ByStudentThenDateDesc(a, b) || ByStudentThenDateDesc(b, a) {
      LexLeTotal(a.studentId, b.studentId);
      LexLeTotal(a.recordDate, b.recordDate);
    }
    forall a, b, c | ByStudentThenDateDesc(a, b) && ByStudentThenDateDesc(b, c)
      ensures ByStudentThenDateDesc(a, c)
    {
      if a.studentId == b.studentId && b.studentId == c.studentId {
        LexLeTransitive(c.recordDate, b.recordDate, a.recordDate);
      } else if a.studentId != b.studentId && b.studentId != c.studentId {
        LexLeTransitive(a.studentId, b.studentId, c.studentId);
        if a.studentId == c.studentId {
          LexLeAntisymmetric(a.studentId, b.studentId);
        }
      }
    }
  }

  /** The ids of the students a sequence of records belongs to. */
  function IdsOf(rs: seq<LearningRecord>): set<string> {
    set x | x in rs :: x.studentId
  }

  /** The first record of each student, in order: what the seen-set loop keeps. */
  function FirstPerStudent(rs: seq<LearningRecord>): (r: seq<LearningRecord>)
    ensures forall x :: x in r ==> x in rs
    ensures forall i, j :: 0 <= i < j < |r| ==> r[i].studentId != r[j].studentId
    ensures IdsOf(r) == IdsOf(rs)
  {
    if rs == [] then []
    else
      var front := rs[..|rs| - 1];
      var last := rs[|rs| - 1];
      assert rs == front + [last];
      var f := FirstPerStudent(front);
      assert IdsOf(rs) == IdsOf(front) + {last.studentId};
      if last.studentId in IdsOf(front) then f
      else
        assert IdsOf(f + [last]) == IdsOf(f) + {last.studentId};
        f + [last]
  }

  /** Appending a record keeps it exactly when its student has not been seen. */
  lemma FirstPerStudentSnoc(rs: seq<LearningRecord>, x: LearningRecord)
    ensures FirstPerStudent(rs + [x])
         == if x.studentId in IdsOf(rs) then FirstPerStudent(rs) else FirstPerStudent(rs) + [x]
  {
    assert (rs + [x])[..|rs + [x]| - 1] == rs;
  }

  /** In a sequence ordered by student and then by date, newest first, the record kept for a
      student has the latest date of all that student's records. */
  lemma {:induction false} FirstIsNewest(rs: seq<LearningRecord>)
    requires Sorting.SortedBy(rs, ByStudentThenDateDesc)
    ensures forall k, x :: k in FirstPerStudent(rs) && x in rs && x.studentId == k.studentId ==>
      LexLe(x.recordDate, k.recordDate)
  {
    if rs != [] {
      var front := rs[..|rs| - 1];
      var last := rs[|rs| - 1];
      assert rs == front + [last];
      FirstPerStudentSnoc(front, last);
      assert Sorting.SortedBy(front, ByStudentThenDateDesc);
      FirstIsNewest(front);
      forall k, x | k in FirstPerStudent(rs) && x in rs && x.studentId == k.studentId
        ensures LexLe(x.recordDate, k.recordDate)
      {
        if k in FirstPerStudent(front) {
          if x !in front {
            var p :| 0 <= p < |front| && front[p] == k;
            assert ByStudentThenDateDesc(rs[p], rs[|rs| - 1]);
          }
        } else {
          assert k == last && last.studentId !in IdsOf(front);
          assert x !in front;
          LexLeTotal(x.recordDate, x.recordDate);
        }
      }
    }
  }

  /** A kept record paired with the student's roster name. */
  datatype LatestRecord = LatestRecord(record: LearningRecord, studentName: string)

  function Named(rs: seq<LearningRecord>, roster: seq<Student>): (r: seq<LatestRecord>)
    ensures |r| == |rs|
    ensures forall i :: 0 <= i < |rs| ==> r[i] == LatestRecord(rs[i], RosterName(roster, rs[i].studentId))
  {
    Sorting.MapSeq(rs, (x: LearningRecord) => LatestRecord(x, RosterName(roster, x.studentId)))
  }

  lemma NamedSnoc(rs: seq<LearningRecord>, x: LearningRecord, roster: seq<Student>)
    ensures Named(rs + [x], roster) == Named(rs, roster) + [LatestRecord(x, RosterName(roster, x.studentId))]
  {
  }

  /** The seen-set loop of getLatestRecords: the first record of each student, named. */
  method KeepFirst(records: seq<LearningRecord>, roster: seq<Student>) returns (latest: seq<LatestRecord>)
    ensures latest == Named(FirstPerStudent(records), roster)
  {
    latest := [];
    var seen: set<string> := {};
    var i := 0;
    while i < |records|
      invariant 0 <= i <= |records|
      invariant seen == IdsOf(records[..i])
      invariant latest == Named(FirstPerStudent(records[..i]), roster)
    {
      var record := records[i];
      assert records[..i + 1] == records[..i] + [record];
      assert IdsOf(records[..i + 1]) == IdsOf(records[..i]) + {record.studentId};
      FirstPerStudentSnoc(records[..i], record);
      NamedSnoc(FirstPerStudent(records[..i]), record, roster);
      if record.studentId !in seen {
        latest := latest + [LatestRecord(record, RosterName(roster, record.studentId))];
        seen := seen + {record.studentId};
      }
      i := i + 1;
    }
    assert records[..i] == records;
  }

  /** The roster of a class as getLatestRecords selects it, ordered by id. */
  function ClassRoster(students: seq<Student>, grade: int, classNumber: int): seq<Student> {
    Sorting.Sort(Sorting.Filter(students, (s: Student) => Students.InClass(s, grade, classNumber)), Students.ById)
  }

  /** The roster's ids. */
  function RosterIds(roster: seq<Student>): set<string> {
    set s | s in roster :: s.id
  }

  /** `.in('student_id', studentIds).order('student_id').order('record_date', desc)`. */
  function ClassRecords(records: seq<LearningRecord>, roster: seq<Student>): seq<LearningRecord> {
    Sorting.Sort(Sorting.Filter(records, (x: LearningRecord) => x.studentId in RosterIds(roster)), ByStudentThenDateDesc)
  }

  /** What getLatestRecords answers for a non-empty roster. */
  function Latest(records: seq<LearningRecord>, roster: seq<Student>): seq<LatestRecord> {
    Named(FirstPerStudent(ClassRecords(records, roster)), roster)
  }

  /** getLatestRecords: a class text that does not parse to numbers, or a failed roster query,
      fails; an empty class gives no records without querying them; otherwise the first record
      of each student in the ordered records query, with the roster name. */
  method GetLatestRecords(students: seq<Student>, records: seq<LearningRecord>, classInfo: string,
                          studentsOk: bool, recordsOk: bool)
    returns (r: Result<seq<LatestRecord>, string>)
    ensures var ci := Students.ParseClassInfo(classInfo);
      && (r.Ok? <==> ci.Some? && studentsOk
                     && (ClassRoster(students, ci.value.0, ci.value.1) == [] || recordsOk))
      && (r.Ok? && ClassRoster(students, ci.value.0, ci.value.1) == [] ==> r.value == [])
      && (r.Ok? && ClassRoster(students, ci.value.0, ci.value.1) != [] ==>
            r.value == Latest(records, ClassRoster(students, ci.value.0, ci.value.1)))
  {
    var ci := Students.ParseClassInfo(classInfo);
    if ci.None? || !studentsOk {
      return Err(LoadError);
    }
    var roster := ClassRoster(students, ci.value.0, ci.value.1);
    if roster == [] {
      return Ok([]);
    }
    if !recordsOk {
      return Err(LoadError);
    }
    var latest := KeepFirst(ClassRecords(records, roster), roster);
    r := Ok(latest);
  }

  /** The latest records hold one entry per student of the roster who has a record, none for
      anyone else; each entry is a record of that student, named from the roster, and no record of
      the student has a later date. */
  lemma LatestSpec(records: seq<LearningRecord>, roster: seq<Student>)
    ensures var r := Latest(records, roster);
      && (forall i, j :: 0 <= i < j < |r| ==> r[i].record.studentId != r[j].record.studentId)
      && (forall e :: e in r ==> e.record in records && e.record.studentId in RosterIds(roster)
                                 && e.studentName == RosterName(roster, e.record.studentId))
      && (forall x :: x in records && x.studentId in RosterIds(roster) ==>
            exists e :: e in r && e.record.studentId == x.studentId && LexLe(x.recordDate, e.record.recordDate))
  {
    LatestEntries(records, roster);
    LatestCoversRoster(records, roster);
  }

  /** One entry per student, each a record of the roster named from the roster. */
  lemma LatestEntries(records: seq<LearningRecord>, roster: seq<Student>)
    ensures var r := Latest(records, roster);
      && (forall i, j :: 0 <= i < j < |r| ==> r[i].record.studentId != r[j].record.studentId)
      && (forall e :: e in r ==> e.record in records && e.record.studentId in RosterIds(roster)
                                 && e.studentName == RosterName(roster, e.record.studentId))
  {
    var sorted := ClassRecords(records, roster);
    var kept := FirstPerStudent(sorted);
    var r := Latest(records, roster);
    ClassRecordsSpec(records, roster);
    forall e | e in r
      ensures e.record in records && e.record.studentId in RosterIds(roster)
      ensures e.studentName == RosterName(roster, e.record.studentId)
    {
      var i :| 0 <= i < |r| && r[i] == e;
      assert kept[i] in kept;
    }
  }

  /** Every roster student with a record has an entry no older than any of their records. */
  lemma LatestCoversRoster(records: seq<LearningRecord>, roster: seq<Student>)
    ensures var r := Latest(records, roster);
      forall x :: x in records && x.studentId in RosterIds(roster) ==>
        exists e :: e in r && e.record.studentId == x.studentId && LexLe(x.recordDate, e.record.recordDate)
  {
    var sorted := ClassRecords(records, roster);
    var kept := FirstPerStudent(sorted);
    var r := Latest(records, roster);
    ClassRecordsSpec(records, roster);
    FirstIsNewest(sorted);
    forall x | x in records && x.studentId in RosterIds(roster)
      ensures exists e :: e in r && e.record.studentId == x.studentId && LexLe(x.recordDate, e.record.recordDate)
    {
      assert x.studentId in IdsOf(sorted);
      var k :| k in kept && k.studentId == x.studentId;
      var i :| 0 <= i < |kept| && kept[i] == k;
      assert r[i].record == k;
    }
  }

  /** The records query holds exactly the roster's records, in its order. */
  lemma ClassRecordsSpec(records: seq<LearningRecord>, roster: seq<Student>)
    ensures var sorted := ClassRecords(records, roster);
      && (forall x :: x in sorted <==> x in records && x.studentId in RosterIds(roster))
      && Sorting.SortedBy(sorted, ByStudentThenDateDesc)
  {
    var p := (x: LearningRecord) => x.studentId in RosterIds(roster);
    var filtered := Sorting.Filter(records, p);
    var sorted := ClassRecords(records, roster);
    Sorting.FilterMembers(records, p);
    forall x ensures x in sorted <==> x in filtered {
      assert x in sorted <==> x in multiset(sorted);
    }
    ByStudentThenDateDescIsOrder();
    Sorting.SortSorted(filtered, ByStudentThenDateDesc);
  }

  /** `rows.map(x => x.record_id === id ? f(x) : x)`: the update of one record by id. */
  function Update(rows: seq<LearningRecord>, id: int, f: LearningRecord -> LearningRecord): (r: seq<LearningRecord>)
    ensures |r| == |rows|
    ensures forall i :: 0 <= i < |rows| ==> r[i] == if rows[i].recordId == id then f(rows[i]) else rows[i]
  {
    Sorting.MapSeq(rows, (x: LearningRecord) => if x.recordId == id then f(x) else x)
  }

  /** The record with that id, if any. */
  function Find(rows: seq<LearningRecord>, id: int): (r: Option<LearningRecord>)
    ensures r.Some? ==> r.value in rows && r.value.recordId == id
    ensures r.None? <==> forall x :: x in rows ==> x.recordId != id
  {
    Sorting.Find(rows, (x: LearningRecord) => x.recordId, id)
  }

  /** Updating keeps every record id, so the table stays keyed. */
  lemma UpdateKeepsIds(t: seq<LearningRecord>, id: int, f: LearningRecord -> LearningRecord, next: int)
    requires UniqueRecordIds(t) && forall x :: x in t ==> x.recordId < next
    requires forall x :: f(x).recordId == x.recordId
    ensures UniqueRecordIds(Update(t, id, f)) && forall x :: x in Update(t, id, f) ==> x.recordId < next
  {
    var u := Update(t, id, f);
    forall x | x in u ensures x.recordId < next {
      var i :| 0 <= i < |u| && u[i] == x;
      assert t[i] in t;
    }
  }

  /** saveAIConversion: `.single()` makes an update that matched no record an error; otherwise the
      record's AI text is replaced and nothing else changes. */
  method SaveAIConversion(t: LearningRecordsTable, recordId: int, aiContent: string, updateOk: bool)
    returns (r: Result<LearningRecord, string>)
    requires t.Valid()
    modifies t
    ensures t.Valid() && t.nextId == old(t.nextId)
    ensures r.Ok? <==> updateOk && Find(old(t.rows), recordId).Some?
    ensures r.Ok? ==> r.value == Find(old(t.rows), recordId).value.(aiText := Some(aiContent))
    ensures |t.rows| == |old(t.rows)|
    ensures forall i :: 0 <= i < |t.rows| ==>
      t.rows[i] == if r.Ok? && old(t.rows)[i].recordId == recordId then old(t.rows)[i].(aiText := Some(aiContent)) else old(t.rows)[i]
  {
    var found := Find(t.rows, recordId);
    if !updateOk || found.None? {
      return Err(UpdateError);
    }
    UpdateKeepsIds(t.rows, recordId, (x: LearningRecord) => x.(aiText := Some(aiContent)), t.nextId);
    t.rows := Update(t.rows, recordId, (x: LearningRecord) => x.(aiText := Some(aiContent)));
    r := Ok(found.value.(aiText := Some(aiContent)));
  }

  /** approveRecord: marks the record approved at `now`; `.single()` makes a missing record an
      error. */
  method ApproveRecord(t: LearningRecordsTable, recordId: int, now: int, updateOk: bool)
    returns (r: Result<LearningRecord, string>)
    requires t.Valid()
    modifies t
    ensures t.Valid() && t.nextId == old(t.nextId)
    ensures r.Ok? <==> updateOk && Find(old(t.rows), recordId).Some?
    ensures r.Ok? ==> r.value == Find(old(t.rows), recordId).value.(isApproved := true, approvedAt := Some(now))
    ensures |t.rows| == |old(t.rows)|
    ensures forall i :: 0 <= i < |t.rows| ==>
      t.rows[i] == if r.Ok? && old(t.rows)[i].recordId == recordId
                   then old(t.rows)[i].(isApproved := true, approvedAt := Some(now)) else old(t.rows)[i]
  {
    var found := Find(t.rows, recordId);
    if !updateOk || found.None? {
      return Err(UpdateError);
    }
    UpdateKeepsIds(t.rows, recordId, (x: LearningRecord) => x.(isApproved := true, approvedAt := Some(now)), t.nextId);
    t.rows := Update(t.rows, recordId, (x: LearningRecord) => x.(isApproved := true, approvedAt := Some(now)));
    r := Ok(found.value.(isApproved := true, approvedAt := Some(now)));
  }

  /** deleteRecord: removes the record with that id; deleting an id that matches nothing still
      succeeds. */
  method DeleteRecord(t: LearningRecordsTable, recordId: int, deleteOk: bool) returns (r: Result<(), string>)
    requires t.Valid()
    modifies t
    ensures t.Valid() && t.nextId == old(t.nextId)
    ensures r.Ok? <==> deleteOk
    ensures r.Ok? ==> t.rows == Without(old(t.rows), recordId)
    ensures r.Err? ==> t.rows == old(t.rows)
  {
    if !deleteOk {
      return Err(UpdateError);
    }
    t.rows := Without(t.rows, recordId);
    r := Ok(());
  }

  /** Without its first row, a keyed table stays keyed, and no later row has the first's id. */
  lemma UniqueRecordIdsTail(rows: seq<LearningRecord>)
    requires rows != [] && UniqueRecordIds(rows)
    ensures UniqueRecordIds(rows[1..])
    ensures forall x :: x in rows[1..] ==> x.recordId != rows[0].recordId
  {
    forall x | x in rows[1..] ensures x.recordId != rows[0].recordId {
      var i :| 0 <= i < |rows[1..]| && rows[1..][i] == x;
      assert rows[i + 1] == x;
    }
  }

  /** A row whose id no other row has, put in front of a keyed table, keeps it keyed. */
  lemma UniqueRecordIdsCons(x: LearningRecord, rest: seq<LearningRecord>)
    requires UniqueRecordIds(rest)
    requires forall y :: y in rest ==> y.recordId != x.recordId
    ensures UniqueRecordIds([x] + rest)
  {
    var r := [x] + rest;
    forall i, j | 0 <= i < j < |r| ensures r[i].recordId != r[j].recordId {
      if i == 0 {
        assert r[j] in rest;
      } else {
        assert r[i] == rest[i - 1] && r[j] == rest[j - 1];
      }
    }
  }

  /** `.delete().eq('record_id', id)`: the records of another id, in order; a keyed table stays
      keyed. */
  function Without(rows: seq<LearningRecord>, recordId: int): (r: seq<LearningRecord>)
    ensures forall x :: x in r <==> x in rows && x.recordId != recordId
    ensures UniqueRecordIds(rows) ==> UniqueRecordIds(r)
  {
    if rows == [] then []
    else
      var rest := Without(rows[1..], recordId);
      assert forall x :: x in rows <==> x == rows[0] || x in rows[1..];
      if rows[0].recordId == recordId then rest
      else
        var r := [rows[0]] + rest;
        assert UniqueRecordIds(rows) ==> UniqueRecordIds(r) by {
          if UniqueRecordIds(rows) {
            UniqueRecordIdsTail(rows);
            assert UniqueRecordIds(rest);
            assert forall x :: x in rest ==> x in rows[1..];
            UniqueRecordIdsCons(rows[0], rest);
          }
        }
        r
  }

  /** One row of the export: its position, the student's name and the AI text. */
  datatype ExportRow = ExportRow(number: int, studentName: string, aiText: string)

  /** `.order('student_id')` on its own. */
  predicate ByStudent(a: LearningRecord, b: LearningRecord) {
    LexLe(a.studentId, b.studentId)
  }

  predicate HasAIText(x: LearningRecord) {
    x.aiText.Some?
  }

  /** `records.map((record, index) => ({ 번호: index + 1, ... }))` from position `n` on. */
  function NumberFrom(rs: seq<LearningRecord>, roster: seq<Student>, n: int): (r: seq<ExportRow>)
    requires forall i :: 0 <= i < |rs| ==> rs[i].aiText.Some?
    ensures |r| == |rs|
    ensures forall i :: 0 <= i < |rs| ==>
      r[i] == ExportRow(n + i, RosterName(roster, rs[i].studentId), rs[i].aiText.value)
  {
    if rs == [] then []
    else
      [ExportRow(n, RosterName(roster, rs[0].studentId), rs[0].aiText.value)] + NumberFrom(rs[1..], roster, n + 1)
  }

  /** The roster of getExportData: the class's students, in table order. */
  function ExportRoster(students: seq<Student>, grade: int, classNumber: int): seq<Student> {
    Sorting.Filter(students, (s: Student) => Students.InClass(s, grade, classNumber))
  }

  /** The records the export query selects: the roster's records with a non-null AI text,
      ordered by student. */
  function ExportRecords(records: seq<LearningRecord>, roster: seq<Student>): (r: seq<LearningRecord>)
    ensures forall x :: x in r <==> x in records && x.studentId in RosterIds(roster) && HasAIText(x)
    ensures forall i :: 0 <= i < |r| ==> r[i].aiText.Some?
  {
    var p := (x: LearningRecord) => x.studentId in RosterIds(roster) && HasAIText(x);
    Sorting.FilterMembers(records, p);
    var r := Sorting.Sort(Sorting.Filter(records, p), ByStudent);
    assert forall x :: x in r <==> x in multiset(r);
    r
  }

  /** getExportData: an unparsable class text or a failed query fails; an empty class gives no
      rows; otherwise the class's records with AI text, numbered from 1. */
  function GetExportData(students: seq<Student>, records: seq<LearningRecord>, classInfo: string,
                         studentsOk: bool, recordsOk: bool): (r: Result<seq<ExportRow>, string>)
    ensures var ci := Students.ParseClassInfo(classInfo);
      r.Ok? <==> ci.Some? && studentsOk && (ExportRoster(students, ci.value.0, ci.value.1) == [] || recordsOk)
  {
    match Students.ParseClassInfo(classInfo)
    case None => Err(LoadError)
    case Some((g, c)) =>
      if !studentsOk then Err(LoadError)
      else
        var roster := ExportRoster(students, g, c);
        if roster == [] then Ok([])
        else if !recordsOk then Err(LoadError)
        else Ok(NumberFrom(ExportRecords(records, roster), roster, 1))
  }

  /** Ordering by student id is a total preorder, so sorting by it is well defined. */
  lemma ByStudentOrder()
    ensures Sorting.Total(ByStudent) && Sorting.Transitive(ByStudent)
  {
    forall a, b ensures ByStudent(a, b) || ByStudent(b, a) {
      LexLeTotal(a.studentId, b.studentId);
    }
    forall a, b, c | ByStudent(a, b) && ByStudent(b, c) ensures ByStudent(a, c) {
      LexLeTransitive(a.studentId, b.studentId, c.studentId);
    }
  }

  /** The export's records are as many as the records the query selects, ordered by student. */
  lemma ExportRecordsSpec(records: seq<LearningRecord>, roster: seq<Student>)
    ensures var rs := ExportRecords(records, roster);
      && |rs| == Sorting.Count(records, (x: LearningRecord) => x.studentId in RosterIds(roster) && HasAIText(x))
      && Sorting.SortedBy(rs, ByStudent)
  {
    var p := (x: LearningRecord) => x.studentId in RosterIds(roster) && HasAIText(x);
    var f := Sorting.Filter(records, p);
    var rs := ExportRecords(records, roster);
    assert rs == Sorting.Sort(f, ByStudent);
    Sorting.CountIsFilterLength(records, p);
    assert |rs| == |f| by {
      assert |multiset(rs)| == |multiset(f)|;
    }
    ByStudentOrder();
    Sorting.SortSorted(f, ByStudent);
  }

  /** The export numbers its rows 1..n with nothing skipped, has one row per record of the class
      with AI text (as many as there are such records), each with that record's text and the
      student's roster name. */
  lemma ExportDataSpec(students: seq<Student>, records: seq<LearningRecord>, g: int, c: int)
    requires ExportRoster(students, g, c) != []
    ensures var roster := ExportRoster(students, g, c);
      var rs := ExportRecords(records, roster);
      var r := NumberFrom(rs, roster, 1);
      && (forall i :: 0 <= i < |r| ==> r[i].number == i + 1)
      && |r| == Sorting.Count(records, (x: LearningRecord) => x.studentId in RosterIds(roster) && HasAIText(x))
      && (forall e :: e in r ==> exists x :: x in records && x.studentId in RosterIds(roster) && x.aiText == Some(e.aiText)
                                                && e.studentName == RosterName(roster, x.studentId))
      && Sorting.SortedBy(rs, ByStudent)
  {
    var roster := ExportRoster(students, g, c);
    ExportRecordsSpec(records, roster);
    ExportRowsFromRecords(records, roster);
  }

  /** Each row of the export carries the AI text of a selected record and its student's name. */
  lemma ExportRowsFromRecords(records: seq<LearningRecord>, roster: seq<Student>)
    ensures var r := NumberFrom(ExportRecords(records, roster), roster, 1);
      forall e :: e in r ==> exists x :: x in records && x.studentId in RosterIds(roster) && x.aiText == Some(e.aiText)
                                          && e.studentName == RosterName(roster, x.studentId)
  {
    var rs := ExportRecords(records, roster);
    var r := NumberFrom(rs, roster, 1);
    forall e | e in r
      ensures exists x :: x in records && x.studentId in RosterIds(roster) && x.aiText == Some(e.aiText)
                          && e.studentName == RosterName(roster, x.studentId)
    {
      var i :| 0 <= i < |r| && r[i] == e;
      assert rs[i] in rs;
    }
  }

  /** `.order('record_date', { ascending: false })`. */
  predicate ByDateDesc(a: LearningRecord, b: LearningRecord) {
    LexLe(b.recordDate, a.recordDate)
  }

  /** getStudentRecords: every record of the student, newest date first. */
  function GetStudentRecords(records: seq<LearningRecord>, studentId: string, queryOk: bool): (r: Result<seq<LearningRecord>, string>)
    ensures r.Ok? <==> queryOk
    ensures r.Ok? ==> (forall x :: x in r.value <==> x in records && x.studentId == studentId)
                      && Sorting.SortedBy(r.value, ByDateDesc)
  {
    if !queryOk then Err(LoadError)
    else
      var p := (x: LearningRecord) => x.studentId == studentId;
      var f := Sorting.Filter(records, p);
      Sorting.FilterMembers(records, p);
      assert Sorting.Total(ByDateDesc) && Sorting.Transitive(ByDateDesc) by {
        forall a, b ensures ByDateDesc(a, b) || ByDateDesc(b, a) {
          LexLeTotal(a.recordDate, b.recordDate);
        }
        forall a, b, c | ByDateDesc(a, b) && ByDateDesc(b, c) ensures ByDateDesc(a, c) {
          LexLeTransitive(c.recordDate, b.recordDate, a.recordDate);
        }
      }
      Sorting.SortSorted(f, ByDateDesc);
      var s := Sorting.Sort(f, ByDateDesc);
      assert forall x :: x in s <==> x in multiset(s);
      Ok(s)
  }
}
