/** The teacher's learning-record panel (src/modules/admin/LearningRecordAdmin.jsx): the latest
    record of each student of a class, a student's earlier dates, the AI conversion, approval,
    deletion and the spreadsheet download. The list on screen is state of its own, updated by
    each handler after the service call it makes succeeds. */
module LearningRecordAdmin {
  import opened Wrappers
  import opened Text
  import opened Database
  import Sorting
  import Students
  import LearningRecords
  import ExcelExport

  type LatestRecord = LearningRecords.LatestRecord
  type LearningRecord = LearningRecords.LearningRecord

  const EnterClass := "학급/학년을 입력하세요"
  const LoadFailed := "기록을 불러오는 중 오류가 발생했습니다"
  const NoCoreLearning := "핵심배움 내용이 없습니다"
  const ConvertDone := "AI 변환이 완료되었습니다"
  const ConvertFailed := "AI 변환 중 오류가 발생했습니다"
  const ApproveDone := "승인되었습니다"
  const ApproveFailed := "승인 중 오류가 발생했습니다"
  const DeleteDone := "삭제되었습니다"
  const DeleteFailed := "삭제 중 오류가 발생했습니다"
  const ExportNoClass := "학급/학년을 먼저 조회해주세요"
  const ExportNoRecords := "다운로드할 기록이 없습니다"
  const ExportNoAIText := "AI 변환된 기록이 없습니다"

  /** `${classInfo} 학급의 기록이 없습니다`. */
  function NoRecordsIn(classInfo: string): string {
    classInfo + " 학급의 기록이 없습니다"
  }

  /** What getLatestRecords loads for a class: nothing when it fails, no records for an empty
      roster, and otherwise the latest record of each student of the roster. */
  function Loaded(students: seq<Student>, table: seq<LearningRecord>, classInfo: string, studentsOk: bool, recordsOk: bool)
    : Option<seq<LatestRecord>>
  {
    var ci := Students.ParseClassInfo(classInfo);
    if ci.None? || !studentsOk then None
    else
      var roster := LearningRecords.ClassRoster(students, ci.value.0, ci.value.1);
      if roster == [] then Some([])
      else if !recordsOk then None
      else Some(LearningRecords.Latest(table, roster))
  }

  /** The call of getLatestRecords whose answer fetchRecords shows. */
  method Load(students: seq<Student>, table: seq<LearningRecord>, classInfo: string, studentsOk: bool, recordsOk: bool)
    returns (r: Option<seq<LatestRecord>>)
    ensures r == Loaded(students, table, classInfo, studentsOk, recordsOk)
  {
    var latest := LearningRecords.GetLatestRecords(students, table, classInfo, studentsOk, recordsOk);
    r := if latest.Ok? then Some(latest.value) else None;
  }

  /** `prev.map(r => hit(r) ? f(r) : r)`: the update of the rows a handler aims at. */
  function Updated(rs: seq<LatestRecord>, hit: LatestRecord -> bool, f: LatestRecord -> LatestRecord): (r: seq<LatestRecord>)
    ensures |r| == |rs|
    ensures forall i :: 0 <= i < |rs| ==> r[i] == if hit(rs[i]) then f(rs[i]) else rs[i]
  {
    seq(|rs|, i requires 0 <= i < |rs| => if hit(rs[i]) then f(rs[i]) else rs[i])
  }

  /** `prev.filter(r => r.record_id !== recordId)`. */
  function WithoutRecord(rs: seq<LatestRecord>, recordId: int): (r: seq<LatestRecord>)
    ensures forall x :: x in r <==> x in rs && x.record.recordId != recordId
    ensures |r| <= |rs|
  {
    Sorting.FilterMembers(rs, (x: LatestRecord) => x.record.recordId != recordId);
    Sorting.Filter(rs, (x: LatestRecord) => x.record.recordId != recordId)
  }

  /** Choosing a date never renames anyone: the names on screen stay as they were, row by row. */
  lemma DateSelectKeepsNames(rs: seq<LatestRecord>, studentId: string, selected: LearningRecord)
    ensures var r := Updated(rs, (x: LatestRecord) => x.record.studentId == studentId,
                             (x: LatestRecord) => LearningRecords.LatestRecord(selected, x.studentName));
      && Sorting.MapSeq(r, (x: LatestRecord) => x.studentName) == Sorting.MapSeq(rs, (x: LatestRecord) => x.studentName)
      && forall i :: 0 <= i < |rs| && rs[i].record.studentId == studentId ==> r[i].record == selected
  {
  }

  /** What the download button ends in. */
  datatype ExportOutcome = Refused(alert: string) | Downloaded(download: ExcelExport.Download<ExcelExport.LearningRow>)

  /** The state of the panel. */
  class RecordAdmin {
    var records: seq<LatestRecord>
    var classInfo: string
    var message: string
    var expandedStudent: Option<string>
    var studentDates: map<string, seq<LearningRecord>>

    /** The panel opens on class "3-1". */
    constructor ()
      ensures records == [] && classInfo == "3-1" && message == "" && expandedStudent.None? && studentDates == map[]
    {
      records, classInfo, message, expandedStudent, studentDates := [], "3-1", "", None, map[];
    }

    /** fetchRecords: a blank class is refused without loading; otherwise what getLatestRecords
        answered for the class (`None` when it failed, see `Load`) replaces the list, with a
        notice when it is empty; a failed load keeps the list. */
    method FetchRecords(answer: Option<seq<LatestRecord>>)
      modifies this
      ensures IsBlank(old(classInfo)) ==> records == old(records) && message == EnterClass
      ensures !IsBlank(old(classInfo)) && answer.Some? ==>
        records == answer.value && message == (if records == [] then NoRecordsIn(classInfo) else "")
      ensures !IsBlank(old(classInfo)) && answer.None? ==> records == old(records) && message == LoadFailed
      ensures classInfo == old(classInfo) && expandedStudent == old(expandedStudent) && studentDates == old(studentDates)
    {
      if IsBlank(classInfo) {
        message := EnterClass;
        return;
      }
      message := "";
      if answer.Some? {
        records := answer.value;
        if answer.value == [] {
          message := NoRecordsIn(classInfo);
        }
      } else {
        message := LoadFailed;
      }
    }

    /** handleDateToggle: the open student closes; any other student opens, and their dates
        are loaded the first time (kept when the load fails). */
    method HandleDateToggle(studentId: string, table: seq<LearningRecord>, queryOk: bool)
      modifies this
      ensures old(expandedStudent) == Some(studentId) ==> expandedStudent.None? && studentDates == old(studentDates)
      ensures old(expandedStudent) != Some(studentId) ==> expandedStudent == Some(studentId)
      ensures old(expandedStudent) != Some(studentId) && studentId !in old(studentDates) && queryOk ==>
        studentDates == old(studentDates)[studentId := LearningRecords.GetStudentRecords(table, studentId, true).value]
      ensures !(old(expandedStudent) != Some(studentId) && studentId !in old(studentDates) && queryOk) ==>
        studentDates == old(studentDates)
      ensures records == old(records) && message == old(message) && classInfo == old(classInfo)
    {
      if expandedStudent == Some(studentId) {
        expandedStudent := None;
      } else {
        expandedStudent := Some(studentId);
        if studentId !in studentDates {
          var r := LearningRecords.GetStudentRecords(table, studentId, queryOk);
          if r.Ok? {
            studentDates := studentDates[studentId := r.value];
          }
        }
      }
    }

    /** handleDateSelect: the rows of that student show the chosen record under the name they
        had; the other rows are as they were; the date list closes. */
    method HandleDateSelect(studentId: string, selected: LearningRecord)
      modifies this
      ensures |records| == |old(records)| && expandedStudent.None?
      ensures forall i :: 0 <= i < |records| ==>
        records[i] == if old(records)[i].record.studentId == studentId
                      then LearningRecords.LatestRecord(selected, old(records)[i].studentName)
                      else old(records)[i]
      ensures message == old(message) && classInfo == old(classInfo) && studentDates == old(studentDates)
    {
      records := Updated(records, (x: LatestRecord) => x.record.studentId == studentId,
                         (x: LatestRecord) => LearningRecords.LatestRecord(selected, x.studentName));
      expandedStudent := None;
    }

    /** handleConvert: a record without core learning is refused; otherwise the generated text
        (`None` when generation failed) is saved and, once saved, shown on that record only. */
    method HandleConvert(t: LearningRecords.LearningRecordsTable, record: LatestRecord, aiContent: Option<string>, saveOk: bool)
      returns (alert: Option<string>)
      requires t.Valid()
      modifies this, t
      ensures t.Valid()
      ensures !Truthy(record.record.coreLearning) ==> alert == Some(NoCoreLearning) && t.rows == old(t.rows)
      ensures Truthy(record.record.coreLearning) && aiContent.None? ==> alert == Some(ConvertFailed) && t.rows == old(t.rows)
      ensures alert.None? <==>
        Truthy(record.record.coreLearning) && aiContent.Some? && saveOk
        && LearningRecords.Find(old(t.rows), record.record.recordId).Some?
      ensures alert.Some? ==> records == old(records) && message == old(message)
      ensures Truthy(record.record.coreLearning) && aiContent.Some? ==>
        |t.rows| == |old(t.rows)| && forall i :: 0 <= i < |t.rows| ==>
          t.rows[i] == if alert.None? && old(t.rows)[i].recordId == record.record.recordId
                       then old(t.rows)[i].(aiText := aiContent) else old(t.rows)[i]
      ensures alert.None? ==> message == ConvertDone && |records| == |old(records)|
      ensures alert.None? ==> forall i :: 0 <= i < |records| ==>
        records[i] == if old(records)[i].record.recordId == record.record.recordId
                      then old(records)[i].(record := old(records)[i].record.(aiText := aiContent))
                      else old(records)[i]
      ensures classInfo == old(classInfo) && expandedStudent == old(expandedStudent) && studentDates == old(studentDates)
    {
      if !Truthy(record.record.coreLearning) {
        return Some(NoCoreLearning);
      }
      if aiContent.None? {
        return Some(ConvertFailed);
      }
      var saved := LearningRecords.SaveAIConversion(t, record.record.recordId, aiContent.value, saveOk);
      if saved.Err? {
        return Some(ConvertFailed);
      }
      var id := record.record.recordId;
      records := Updated(records, (x: LatestRecord) => x.record.recordId == id,
                         (x: LatestRecord) => x.(record := x.record.(aiText := aiContent)));
      message := ConvertDone;
      return None;
    }

    /** handleApprove: after confirmation and a successful approval, that record shows as
        approved; nothing else on screen changes. */
    method HandleApprove(t: LearningRecords.LearningRecordsTable, recordId: int, confirmed: bool, now: int, updateOk: bool)
      returns (alert: Option<string>)
      requires t.Valid()
      modifies this, t
      ensures t.Valid()
      ensures !confirmed ==> alert.None? && records == old(records) && message == old(message) && t.rows == old(t.rows)
      ensures confirmed ==> (alert.None? <==> updateOk && LearningRecords.Find(old(t.rows), recordId).Some?)
      ensures alert.Some? ==> alert == Some(ApproveFailed) && records == old(records) && message == old(message)
      ensures confirmed ==>
        |t.rows| == |old(t.rows)| && forall i :: 0 <= i < |t.rows| ==>
          t.rows[i] == if alert.None? && old(t.rows)[i].recordId == recordId
                       then old(t.rows)[i].(isApproved := true, approvedAt := Some(now)) else old(t.rows)[i]
      ensures confirmed && alert.None? ==> message == ApproveDone && |records| == |old(records)|
      ensures confirmed && alert.None? ==> forall i :: 0 <= i < |records| ==>
        records[i] == if old(records)[i].record.recordId == recordId
                      then old(records)[i].(record := old(records)[i].record.(isApproved := true))
                      else old(records)[i]
      ensures classInfo == old(classInfo) && expandedStudent == old(expandedStudent) && studentDates == old(studentDates)
    {
      if !confirmed {
        return None;
      }
      var r := LearningRecords.ApproveRecord(t, recordId, now, updateOk);
      if r.Err? {
        return Some(ApproveFailed);
      }
      records := Updated(records, (x: LatestRecord) => x.record.recordId == recordId,
                         (x: LatestRecord) => x.(record := x.record.(isApproved := true)));
      message := ApproveDone;
      return None;
    }

    /** handleDelete: after confirmation and a successful delete, exactly the rows of that
        record leave the list, the others keep their order. */
    method HandleDelete(t: LearningRecords.LearningRecordsTable, recordId: int, confirmed: bool, deleteOk: bool)
      returns (alert: Option<string>)
      requires t.Valid()
      modifies this, t
      ensures t.Valid()
      ensures !confirmed ==> alert.None? && records == old(records) && message == old(message) && t.rows == old(t.rows)
      ensures confirmed && !deleteOk ==> alert == Some(DeleteFailed) && records == old(records) && message == old(message) && t.rows == old(t.rows)
      ensures confirmed && deleteOk ==> alert.None? && records == WithoutRecord(old(records), recordId) && message == DeleteDone
      ensures confirmed && deleteOk ==> t.rows == LearningRecords.Without(old(t.rows), recordId)
      ensures classInfo == old(classInfo) && expandedStudent == old(expandedStudent) && studentDates == old(studentDates)
    {
      alert := None;
      if confirmed {
        var r := LearningRecords.DeleteRecord(t, recordId, deleteOk);
        if r.Ok? {
          DropRecord(recordId);
        } else {
          alert := Some(DeleteFailed);
        }
      }
    }

    /** The list after a successful delete. */
    method DropRecord(recordId: int)
      modifies this
      ensures records == WithoutRecord(old(records), recordId) && message == DeleteDone
      ensures classInfo == old(classInfo) && expandedStudent == old(expandedStudent) && studentDates == old(studentDates)
    {
      records := WithoutRecord(records, recordId);
      message := DeleteDone;
    }

    /** handleExport: refused for a blank class, an empty list, or a list without AI text;
        otherwise the list is written as the class's sheet. */
    function Export(now: int, writeOk: bool): (r: ExportOutcome)
      reads this
      ensures r.Downloaded? <==> !IsBlank(classInfo) && exists x :: x in records && Truthy(x.record.aiText)
      ensures IsBlank(classInfo) ==> r == Refused(ExportNoClass)
      ensures !IsBlank(classInfo) && records == [] ==> r == Refused(ExportNoRecords)
      ensures r.Downloaded? ==> !r.download.NoData? && (r.download.Written? ==> r.download.sheet == ExcelExport.LearningSheet(records))
    {
      if IsBlank(classInfo) then Refused(ExportNoClass)
      else if records == [] then Refused(ExportNoRecords)
      else
        var p := (x: LatestRecord) => Truthy(x.record.aiText);
        Sorting.FilterMembers(records, p);
        if Sorting.Filter(records, p) == [] then
          assert forall x :: x in records ==> !Truthy(x.record.aiText);
          Refused(ExportNoAIText)
        else
          assert Sorting.Filter(records, p)[0] in records;
          Downloaded(ExcelExport.ExportLearningRecords(records, classInfo, now, writeOk))
    }
  }
}
