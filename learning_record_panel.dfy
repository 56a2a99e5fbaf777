/** A student's learning-record panel (src/modules/student/LearningRecordPanel.jsx): today's
    core learning, the learning-process checklist and the thoughts, saved as a draft or
    submitted once into `learning_records`. Every database answer is an input; today's date is
    a parameter. */
module LearningRecordPanel {
  import opened Wrappers
  import opened Text
  import Sorting
  import LearningRecords

  type LearningRecord = LearningRecords.LearningRecord

  /** The checklist offered. */
  const ProcessOptions: seq<string> := [
    "친구 어려워하는 것 도와줌",
    "용기내어 질문함",
    "공부 순서 정하기 등 계획세움",
    "포기하지 않고 해결함",
    "새로운 방법으로 시도함",
    "친구 말을 귀담아 들음",
    "친구들과 협력해서 문제해결함",
    "대화 또는 발표할 때 자신있게 말했음"
  ]

  const LoadedSubmitted := "✅ 오늘 배움기록을 이미 제출했습니다."
  const LoadedDraft := "📝 임시저장된 기록을 불러왔습니다."
  const LoginNeeded := "❌ 로그인이 필요합니다."
  const TempSaved := "✅ 임시저장되었습니다."
  const TempSaveFailed := "❌ 저장 중 오류가 발생했습니다."
  const NeedContent := "❌ 핵심배움(10자 이상) 또는 학습과정(1개 이상)을 입력해주세요."
  const AlreadySubmitted := "❌ 오늘 배움기록을 이미 제출했습니다."
  const SubmitDone := "✅ 배움기록이 제출되었습니다!"
  const SubmitFailed := "❌ 제출 중 오류가 발생했습니다."

  /** handleProcessToggle: a checked item is unchecked, an unchecked one is added at the end. */
  function Toggled(selected: seq<string>, process: string): (r: seq<string>)
    ensures process in r <==> process !in selected
    ensures forall x :: x != process ==> (x in r <==> x in selected)
    ensures process !in selected ==> r == selected + [process]
  {
    if process in selected then
      Sorting.FilterMembers(selected, (p: string) => p != process);
      Sorting.Filter(selected, (p: string) => p != process)
    else selected + [process]
  }

  /** Toggling never duplicates an item. */
  lemma ToggleNoDup(selected: seq<string>, process: string)
    requires Sorting.NoDup(selected)
    ensures Sorting.NoDup(Toggled(selected, process))
  {
    if process in selected {
      Sorting.FilterNoDup(selected, (p: string) => p != process);
    }
  }

  /** Toggling the same item twice gives back the list when the item was unchecked, and the
      same items when it was checked (it then moves to the end). */
  lemma ToggleTwice(selected: seq<string>, process: string)
    ensures process !in selected ==> Toggled(Toggled(selected, process), process) == selected
    ensures forall x :: x in Toggled(Toggled(selected, process), process) <==> x in selected
  {
    if process !in selected {
      var once := selected + [process];
      Sorting.FilterAppend(selected, [process], (p: string) => p != process);
      Sorting.FilterAll(selected, (p: string) => p != process);
      assert Sorting.Filter([process], (p: string) => p != process) == [];
    }
  }

  /** canSubmit: at least ten characters of core learning once trimmed, or a checked item. */
  predicate CanSubmit(coreLearning: string, selected: seq<string>) {
    |Trim(coreLearning)| >= 10 || |selected| > 0
  }

  /** White space around the core learning never decides whether it can be submitted. */
  lemma CanSubmitIgnoresPadding(pad: string, core: string, pad2: string, selected: seq<string>)
    requires IsBlank(pad) && IsBlank(pad2) && core != [] && !IsSpace(core[0]) && !IsSpace(core[|core| - 1])
    ensures CanSubmit(pad + core + pad2, selected) <==> |core| >= 10 || |selected| > 0
  {
    TrimPadded(pad, core, pad2);
  }

  /** A blank entry alone never allows a submit. */
  lemma BlankCannotSubmit(coreLearning: string)
    requires IsBlank(coreLearning)
    ensures !CanSubmit(coreLearning, [])
  {
    TrimEmptyIffBlank(coreLearning);
  }

  /** `text.trim() || null`: blank text is stored as null, other text trimmed. */
  function Stored(s: string): (r: Option<string>)
    ensures r.None? <==> IsBlank(s)
    ensures r.Some? ==> r.value == Trim(s)
  {
    TrimEmptyIffBlank(s);
    if Trim(s) == [] then None else Some(Trim(s))
  }

  /** What is stored is already trimmed: storing it again stores the same text, and it neither
      starts nor ends with white space. */
  lemma StoredIsTrimmed(s: string)
    ensures Stored(s).Some? ==> Stored(Stored(s).value) == Stored(s)
    ensures Stored(s).Some? ==> !IsSpace(Stored(s).value[0]) && !IsSpace(Stored(s).value[|Stored(s).value| - 1])
  {
    var t := Trim(s);
    if t != [] {
      TrimIdempotent(s);
      assert Stored(t) == Some(t);
    }
    StoredEnds(s);
  }

  lemma StoredEnds(s: string)
    ensures Stored(s).Some? ==> !IsSpace(Stored(s).value[0]) && !IsSpace(Stored(s).value[|Stored(s).value| - 1])
  {
    TrimEnds(s);
  }

  /** The fields a save or a submit writes (`recordData`). */
  datatype Draft = Draft(studentId: string, recordDate: string, coreLearning: Option<string>,
                         learningProcess: seq<string>, thoughts: Option<string>, isSubmitted: bool)

  /** A row after `.update(recordData)`: the written fields replaced, the others kept. */
  function Apply(x: LearningRecord, d: Draft): (r: LearningRecord)
    ensures r.recordId == x.recordId && Holds(r, d)
    ensures r.aiText == x.aiText && r.isApproved == x.isApproved && r.approvedAt == x.approvedAt
  {
    x.(studentId := d.studentId, recordDate := d.recordDate, coreLearning := d.coreLearning,
       learningProcess := d.learningProcess, thoughts := d.thoughts, isSubmitted := d.isSubmitted)
  }

  /** A row carries exactly the draft's fields. */
  predicate Holds(x: LearningRecord, d: Draft) {
    && x.studentId == d.studentId && x.recordDate == d.recordDate && x.coreLearning == d.coreLearning
    && x.learningProcess == d.learningProcess && x.thoughts == d.thoughts && x.isSubmitted == d.isSubmitted
  }

  /** A row inserted with the draft: no AI text, not approved. */
  function Inserted(id: int, d: Draft): (r: LearningRecord)
    ensures r.recordId == id && Holds(r, d) && r.aiText.None? && !r.isApproved
  {
    LearningRecords.LearningRecord(id, d.studentId, d.recordDate, d.coreLearning, d.learningProcess,
                                   d.thoughts, d.isSubmitted, None, false, None)
  }

  /** The table after a successful write: the rows of today's record updated, or a new row. */
  function AfterWrite(rows: seq<LearningRecord>, nextId: int, existing: Option<LearningRecord>, d: Draft): (r: seq<LearningRecord>)
    ensures existing.Some? ==> |r| == |rows| && forall i :: 0 <= i < |r| ==>
      r[i] == if rows[i].recordId == existing.value.recordId then Apply(rows[i], d) else rows[i]
    ensures existing.None? ==> r == rows + [Inserted(nextId, d)]
    ensures existing.Some? ==> forall x :: x in r && x.recordId == existing.value.recordId ==> Holds(x, d)
  {
    if existing.Some? then
      var u := LearningRecords.Update(rows, existing.value.recordId, (x: LearningRecord) => Apply(x, d));
      assert forall x :: x in u && x.recordId == existing.value.recordId ==> Holds(x, d) by {
        forall x | x in u && x.recordId == existing.value.recordId ensures Holds(x, d) {
          var i :| 0 <= i < |u| && u[i] == x;
        }
      }
      u
    else
      rows + [Inserted(nextId, d)]
  }

  /** The save and the submit write: an update of today's record by id, or an insert that
      returns the new row. */
  method Write(t: LearningRecords.LearningRecordsTable, existing: Option<LearningRecord>, d: Draft, ok: bool)
    returns (r: Result<Option<LearningRecord>, string>)
    requires t.Valid()
    modifies t
    ensures t.Valid()
    ensures r.Ok? <==> ok
    ensures ok ==> t.rows == AfterWrite(old(t.rows), old(t.nextId), existing, d)
    ensures ok && existing.None? ==> r.value == Some(Inserted(old(t.nextId), d))
    ensures ok && existing.Some? ==> r.value.None?
    ensures !ok ==> t.rows == old(t.rows)
  {
    if !ok {
      return Err(LearningRecords.UpdateError);
    }
    if existing.Some? {
      LearningRecords.UpdateKeepsIds(t.rows, existing.value.recordId, (x: LearningRecord) => Apply(x, d), t.nextId);
      t.rows := AfterWrite(t.rows, t.nextId, existing, d);
      r := Ok(None);
    } else {
      var row := Inserted(t.nextId, d);
      t.rows := AfterWrite(t.rows, t.nextId, existing, d);
      t.nextId := t.nextId + 1;
      r := Ok(Some(row));
    }
  }

  /** Today's rows of a student. */
  function Matching(rows: seq<LearningRecord>, studentId: string, today: string): (r: seq<LearningRecord>)
    ensures forall x :: x in r <==> x in rows && x.studentId == studentId && x.recordDate == today
  {
    Sorting.FilterMembers(rows, (x: LearningRecord) => x.studentId == studentId && x.recordDate == today);
    Sorting.Filter(rows, (x: LearningRecord) => x.studentId == studentId && x.recordDate == today)
  }

  /** `.eq('student_id', id).eq('record_date', today).single()`: the record only when the
      query succeeds and exactly one row matches. */
  function TodayRecord(rows: seq<LearningRecord>, studentId: string, today: string, queryOk: bool): (r: Option<LearningRecord>)
    ensures r.Some? <==> queryOk && |Matching(rows, studentId, today)| == 1
    ensures r.Some? ==> && r.value in rows && r.value.studentId == studentId && r.value.recordDate == today
                        && forall x :: x in rows && x.studentId == studentId && x.recordDate == today ==> x == r.value
  {
    var m := Matching(rows, studentId, today);
    if queryOk && |m| == 1 then
      assert m[0] in m;
      assert forall x :: x in m ==> x == m[0];
      Some(m[0])
    else None
  }

  /** The panel's state. */
  class Panel {
    var studentId: Option<string>
    var coreLearning: string
    var selected: seq<string>
    var thoughts: string
    var message: string
    var todayRecord: Option<LearningRecord>

    /** Submitted: both buttons and the inputs are disabled. */
    predicate IsSubmitted()
      reads this
    {
      todayRecord.Some? && todayRecord.value.isSubmitted
    }

    predicate TempSaveEnabled()
      reads this
    {
      !IsSubmitted()
    }

    predicate SubmitEnabled()
      reads this
    {
      !IsSubmitted() && CanSubmit(coreLearning, selected)
    }

    /** The panel opens with the id kept by the browser; an empty id counts as none. */
    constructor (storedId: Option<string>)
      ensures studentId == (if Truthy(storedId) then storedId else None)
      ensures coreLearning == "" && selected == [] && thoughts == "" && message == "" && todayRecord.None?
    {
      studentId := if Truthy(storedId) then storedId else None;
      coreLearning, selected, thoughts, message := "", [], "", "";
      todayRecord := None;
    }

    /** The draft a save (`submitted` false) or a submit (`submitted` true) writes. */
    function DraftOf(today: string, submitted: bool): (d: Draft)
      requires studentId.Some?
      reads this
      ensures d.isSubmitted == submitted && d.learningProcess == selected && d.recordDate == today
      ensures d.coreLearning == Stored(coreLearning) && d.thoughts == Stored(thoughts)
    {
      Draft(studentId.value, today, Stored(coreLearning), selected, Stored(thoughts), submitted)
    }

    /** fetchTodayRecord: today's record, when found, fills the form and says whether it was
        submitted; a submitted one disables both buttons. Otherwise nothing changes. */
    method FetchToday(t: LearningRecords.LearningRecordsTable, id: string, today: string, queryOk: bool)
      modifies this
      ensures var found := TodayRecord(t.rows, id, today, queryOk);
        && (found.Some? ==>
              && todayRecord == found
              && coreLearning == (if found.value.coreLearning.Some? then found.value.coreLearning.value else "")
              && selected == found.value.learningProcess
              && thoughts == (if found.value.thoughts.Some? then found.value.thoughts.value else "")
              && message == (if found.value.isSubmitted then LoadedSubmitted else LoadedDraft)
              && (found.value.isSubmitted ==> !TempSaveEnabled() && !SubmitEnabled()))
        && (found.None? ==>
              && todayRecord == old(todayRecord) && coreLearning == old(coreLearning) && selected == old(selected)
              && thoughts == old(thoughts) && message == old(message))
      ensures studentId == old(studentId)
    {
      var found := TodayRecord(t.rows, id, today, queryOk);
      if found.Some? {
        Load(found.value);
      }
    }

    /** Today's record fills the form; the message says whether it was submitted. */
    method Load(data: LearningRecord)
      modifies this
      ensures todayRecord == Some(data)
      ensures coreLearning == (if data.coreLearning.Some? then data.coreLearning.value else "")
      ensures selected == data.learningProcess
      ensures thoughts == (if data.thoughts.Some? then data.thoughts.value else "")
      ensures message == (if data.isSubmitted then LoadedSubmitted else LoadedDraft)
      ensures data.isSubmitted ==> !TempSaveEnabled() && !SubmitEnabled()
      ensures studentId == old(studentId)
    {
      todayRecord := Some(data);
      coreLearning := if data.coreLearning.Some? then data.coreLearning.value else "";
      selected := data.learningProcess;
      thoughts := if data.thoughts.Some? then data.thoughts.value else "";
      message := if data.isSubmitted then LoadedSubmitted else LoadedDraft;
    }

    /** handleProcessToggle. */
    method ToggleProcess(process: string)
      modifies this
      ensures selected == Toggled(old(selected), process)
      ensures coreLearning == old(coreLearning) && thoughts == old(thoughts) && message == old(message)
      ensures todayRecord == old(todayRecord) && studentId == old(studentId)
    {
      selected := Toggled(selected, process);
    }

    /** Typing the core learning. */
    method SetCoreLearning(value: string)
      modifies this
      ensures coreLearning == value
      ensures selected == old(selected) && thoughts == old(thoughts) && message == old(message)
      ensures todayRecord == old(todayRecord) && studentId == old(studentId)
    {
      coreLearning := value;
    }

    /** The write behind both buttons: the draft goes into today's record, or into a new row
        that becomes today's record; the message says how it went. */
    method Save(t: LearningRecords.LearningRecordsTable, today: string, submitted: bool, done: string, failed: string, ok: bool)
      requires studentId.Some? && t.Valid()
      modifies this, t
      ensures t.Valid()
      ensures ok ==> && message == done
                     && t.rows == AfterWrite(old(t.rows), old(t.nextId), old(todayRecord), old(DraftOf(today, submitted)))
                     && todayRecord == (if old(todayRecord).Some? then old(todayRecord)
                                        else Some(Inserted(old(t.nextId), old(DraftOf(today, submitted)))))
      ensures !ok ==> message == failed && t.rows == old(t.rows) && todayRecord == old(todayRecord)
      ensures studentId == old(studentId) && coreLearning == old(coreLearning) && selected == old(selected)
      ensures thoughts == old(thoughts)
    {
      var r := Write(t, todayRecord, DraftOf(today, submitted), ok);
      ShowResult(r, done, failed);
    }

    /** After the write: an inserted row becomes today's record, and the message says how the
        write went. */
    method ShowResult(r: Result<Option<LearningRecord>, string>, done: string, failed: string)
      modifies this
      ensures message == (if r.Ok? then done else failed)
      ensures todayRecord == (if r.Ok? && r.value.Some? then r.value else old(todayRecord))
      ensures studentId == old(studentId) && coreLearning == old(coreLearning) && selected == old(selected)
      ensures thoughts == old(thoughts)
    {
      if r.Ok? {
        if r.value.Some? {
          todayRecord := r.value;
        }
        message := done;
      } else {
        message := failed;
      }
    }

    /** handleTempSave: without a student only a message; otherwise the draft is written as not
        submitted. */
    method TempSave(t: LearningRecords.LearningRecordsTable, today: string, ok: bool)
      requires t.Valid()
      modifies this, t
      ensures t.Valid()
      ensures old(studentId).None? ==> message == LoginNeeded && t.rows == old(t.rows) && todayRecord == old(todayRecord)
      ensures old(studentId).Some? && ok ==>
        && message == TempSaved && t.rows == AfterWrite(old(t.rows), old(t.nextId), old(todayRecord), old(DraftOf(today, false)))
        && todayRecord == (if old(todayRecord).Some? then old(todayRecord) else Some(Inserted(old(t.nextId), old(DraftOf(today, false)))))
      ensures old(studentId).Some? && !ok ==> message == TempSaveFailed && t.rows == old(t.rows) && todayRecord == old(todayRecord)
      ensures studentId == old(studentId) && coreLearning == old(coreLearning) && selected == old(selected)
      ensures thoughts == old(thoughts)
    {
      if studentId.None? {
        message := LoginNeeded;
      } else {
        Save(t, today, false, TempSaved, TempSaveFailed, ok);
      }
    }

    /** handleSubmit: refused without a student, without enough content, or when today's record
        is already submitted; a cancelled confirmation does nothing. Otherwise the draft is
        written as submitted. A submit that inserted the record disables the panel at once; one
        that updated today's record does so at the re-fetch that follows. */
    method Submit(t: LearningRecords.LearningRecordsTable, today: string, confirmed: bool, ok: bool)
      requires t.Valid()
      modifies this, t
      ensures t.Valid()
      ensures var writes := old(studentId).Some? && old(CanSubmit(coreLearning, selected)) && !old(IsSubmitted()) && confirmed;
        && (old(studentId).None? ==> message == LoginNeeded)
        && (old(studentId).Some? && !old(CanSubmit(coreLearning, selected)) ==> message == NeedContent)
        && (old(studentId).Some? && old(CanSubmit(coreLearning, selected)) && old(IsSubmitted()) ==> message == AlreadySubmitted)
        && (old(studentId).Some? && old(CanSubmit(coreLearning, selected)) && !old(IsSubmitted()) && !confirmed ==> message == old(message))
        && (writes && !ok ==> message == SubmitFailed)
        && (!(writes && ok) ==> t.rows == old(t.rows) && todayRecord == old(todayRecord))
      ensures old(studentId).Some? && old(CanSubmit(coreLearning, selected)) && !old(IsSubmitted()) && confirmed && ok ==>
        && message == SubmitDone
        && t.rows == AfterWrite(old(t.rows), old(t.nextId), old(todayRecord), old(DraftOf(today, true)))
        && (old(todayRecord).None? ==> todayRecord == Some(Inserted(old(t.nextId), old(DraftOf(today, true))))
                                       && !TempSaveEnabled() && !SubmitEnabled())
        && (old(todayRecord).Some? ==> todayRecord == old(todayRecord))
      ensures studentId == old(studentId) && coreLearning == old(coreLearning) && selected == old(selected)
      ensures thoughts == old(thoughts)
    {
      if studentId.None? {
        message := LoginNeeded;
      } else {
        SubmitChecked(t, today, confirmed, ok);
      }
    }

    /** handleSubmit once a student is logged in. */
    method SubmitChecked(t: LearningRecords.LearningRecordsTable, today: string, confirmed: bool, ok: bool)
      requires studentId.Some? && t.Valid()
      modifies this, t
      ensures t.Valid()
      ensures var writes := old(CanSubmit(coreLearning, selected)) && !old(IsSubmitted()) && confirmed;
        && (!old(CanSubmit(coreLearning, selected)) ==> message == NeedContent)
        && (old(CanSubmit(coreLearning, selected)) && old(IsSubmitted()) ==> message == AlreadySubmitted)
        && (old(CanSubmit(coreLearning, selected)) && !old(IsSubmitted()) && !confirmed ==> message == old(message))
        && (writes && !ok ==> message == SubmitFailed)
        && (!(writes && ok) ==> t.rows == old(t.rows) && todayRecord == old(todayRecord))
      ensures old(CanSubmit(coreLearning, selected)) && !old(IsSubmitted()) && confirmed && ok ==>
        && message == SubmitDone
        && t.rows == AfterWrite(old(t.rows), old(t.nextId), old(todayRecord), old(DraftOf(today, true)))
        && (old(todayRecord).None? ==> todayRecord == Some(Inserted(old(t.nextId), old(DraftOf(today, true))))
                                       && !TempSaveEnabled() && !SubmitEnabled())
        && (old(todayRecord).Some? ==> todayRecord == old(todayRecord))
      ensures studentId == old(studentId) && coreLearning == old(coreLearning) && selected == old(selected)
      ensures thoughts == old(thoughts)
    {
      if !CanSubmit(coreLearning, selected) {
        message := NeedContent;
      } else if IsSubmitted() {
        message := AlreadySubmitted;
      } else if confirmed {
        SubmitWrite(t, today, ok);
      }
    }

    /** The confirmed submit: the draft is written as submitted, and a row it inserts becomes
        today's record, submitted, so both buttons are disabled. */
    method SubmitWrite(t: LearningRecords.LearningRecordsTable, today: string, ok: bool)
      requires studentId.Some? && t.Valid()
      modifies this, t
      ensures t.Valid()
      ensures ok ==>
        && message == SubmitDone
        && t.rows == AfterWrite(old(t.rows), old(t.nextId), old(todayRecord), old(DraftOf(today, true)))
        && (old(todayRecord).None? ==> todayRecord == Some(Inserted(old(t.nextId), old(DraftOf(today, true))))
                                       && !TempSaveEnabled() && !SubmitEnabled())
        && (old(todayRecord).Some? ==> todayRecord == old(todayRecord))
      ensures !ok ==> message == SubmitFailed && t.rows == old(t.rows) && todayRecord == old(todayRecord)
      ensures studentId == old(studentId) && coreLearning == old(coreLearning) && selected == old(selected)
      ensures thoughts == old(thoughts)
    {
      Save(t, today, true, SubmitDone, SubmitFailed, ok);
    }
  }
}
