/** Help requests: asking for help, offering it, cancelling, the 40-minute lazy expiry, the
    thank-you that completes a help, and the class board (src/services/helpService.js). The
    `help_requests` table holds at most one row per student, the key of its upsert; every
    database call is a boolean outcome parameter. */
module Help {
  import opened Wrappers
  import opened Database
  import Time
  import Students
  import Points
  import Sorting
  import Text

  const HelpError := "도움 요청 처리 실패"

  /** `elapsedMs > EXPIRY_MS`: strictly more than 40 minutes since the request started. */
  predicate Expired(req: HelpRequest, now: int) {
    now - req.startedAt > Time.SessionMs
  }

  /** The student has an active request that has not expired. */
  predicate Live(rows: map<string, HelpRequest>, id: string, now: int) {
    id in rows && rows[id].isActive && !Expired(rows[id], now)
  }

  /** `update({ is_active: false }).eq('student_id', id).eq('is_active', true)`. */
  function Deactivate(rows: map<string, HelpRequest>, id: string): (r: map<string, HelpRequest>)
    ensures r.Keys == rows.Keys
    ensures id in r ==> !r[id].isActive && r[id].status == rows[id].status && r[id].startedAt == rows[id].startedAt
    ensures forall k :: k in rows && k != id ==> r[k] == rows[k]
  {
    if id in rows && rows[id].isActive then rows[id := rows[id].(isActive := false)] else rows
  }

  /** The same update for every id of a set (`.in('student_id', ids)`). */
  function DeactivateAll(rows: map<string, HelpRequest>, ids: set<string>): (r: map<string, HelpRequest>)
    ensures r.Keys == rows.Keys
    ensures forall k :: k in rows && k in ids ==> !r[k].isActive && r[k].status == rows[k].status && r[k].startedAt == rows[k].startedAt
    ensures forall k :: k in rows && k !in ids ==> r[k] == rows[k]
  {
    map k | k in rows :: if k in ids then rows[k].(isActive := false) else rows[k]
  }

  /** The table after a read that finds the student's request expired: that request alone is
      deactivated, so no student's live status changes and the student is left without an
      active request that has expired. */
  function ExpireOnRead(rows: map<string, HelpRequest>, id: string, now: int): (r: map<string, HelpRequest>)
    ensures r.Keys == rows.Keys
    ensures forall k :: k in rows && k != id ==> r[k] == rows[k]
    ensures id in rows ==> r[id].status == rows[id].status && r[id].startedAt == rows[id].startedAt
    ensures forall k :: Live(r, k, now) <==> Live(rows, k, now)
    ensures !(id in r && r[id].isActive && Expired(r[id], now))
  {
    if id in rows && rows[id].isActive && Expired(rows[id], now) then Deactivate(rows, id) else rows
  }

  /** getMyActiveRequest: the student's active request; one that has run for more than 40
      minutes is reported as none and deactivated, the outcome of that update being ignored. */
  method GetMyActiveRequest(t: HelpRequestsTable, studentId: string, now: int, selectOk: bool, updateOk: bool)
    returns (r: Result<Option<HelpRequest>, string>)
    modifies t
    ensures r.Ok? <==> selectOk
    ensures r.Ok? ==> (r.value.Some? <==> Live(old(t.rows), studentId, now))
    ensures r.Ok? && r.value.Some? ==> r.value.value == old(t.rows)[studentId]
    ensures t.rows == if selectOk && updateOk then ExpireOnRead(old(t.rows), studentId, now) else old(t.rows)
  {
    if !selectOk {
      return Err(HelpError);
    }
    if studentId !in t.rows || !t.rows[studentId].isActive {
      return Ok(None);
    }
    var data := t.rows[studentId];
    if now - data.startedAt > Time.SessionMs {
      if updateOk {
        t.rows := Deactivate(t.rows, studentId);
      }
      return Ok(None);
    }
    r := Ok(Some(data));
  }

  /** createHelpRequest: deactivates the student's active request (the outcome ignored), then
      upserts an active request with the given status started now. */
  method CreateHelpRequest(t: HelpRequestsTable, studentId: string, status: HelpStatus, now: int,
                           deactivateOk: bool, upsertOk: bool)
    returns (r: Result<HelpRequest, string>)
    modifies t
    ensures r.Ok? <==> upsertOk
    ensures r.Ok? ==> r.value == HelpRequest(status, true, now)
                      && t.rows == old(t.rows)[studentId := HelpRequest(status, true, now)]
    ensures r.Err? ==> t.rows == if deactivateOk then Deactivate(old(t.rows), studentId) else old(t.rows)
  {
    if deactivateOk {
      t.rows := Deactivate(t.rows, studentId);
    }
    if !upsertOk {
      return Err(HelpError);
    }
    var row := HelpRequest(status, true, now);
    t.rows := t.rows[studentId := row];
    r := Ok(row);
  }

  /** A request created at `created` is what getMyActiveRequest reports until 40 minutes have
      passed, that moment included, and nothing after. */
  lemma CreatedIsLive(rows: map<string, HelpRequest>, id: string, status: HelpStatus, created: int, later: int)
    ensures Live(rows[id := HelpRequest(status, true, created)], id, later) <==> later - created <= Time.SessionMs
  {
  }

  /** cancelHelpRequest: deactivates the student's active request; without one the update
      matches no row and fails. */
  method CancelHelpRequest(t: HelpRequestsTable, studentId: string, updateOk: bool)
    returns (r: Result<HelpRequest, string>)
    modifies t
    ensures r.Ok? <==> updateOk && studentId in old(t.rows) && old(t.rows)[studentId].isActive
    ensures r.Ok? ==> r.value == old(t.rows)[studentId].(isActive := false)
    ensures t.rows == if r.Ok? then Deactivate(old(t.rows), studentId) else old(t.rows)
  {
    if !updateOk || studentId !in t.rows || !t.rows[studentId].isActive {
      return Err(HelpError);
    }
    var row := t.rows[studentId].(isActive := false);
    t.rows := Deactivate(t.rows, studentId);
    r := Ok(row);
  }

  /** completeHelp: (1) records a one-point transaction from the helper to the helped student,
      (2) raises the helper's points by one, (3) deactivates the helped student's request. A
      failing step stops the sequence and nothing done before it is undone. The flags after
      `insertOk` are those of incrementPoints, then `updateOk` for step (3). */
  method CompleteHelp(help: HelpRequestsTable, points: DailyPointsTable, transactions: TransactionsTable,
                      requestingId: string, helpingId: string, now: int,
                      insertOk: bool, selectOk: bool, pointsInsertOk: bool, fetchOk: bool, pointsUpdateOk: bool,
                      updateOk: bool)
    returns (r: Result<(), string>)
    requires points.Valid() && transactions.Valid()
    modifies help, points, transactions
    ensures points.Valid() && transactions.Valid()
    ensures !insertOk ==> r.Err? && transactions.rows == old(transactions.rows)
                          && points.rows == old(points.rows) && help.rows == old(help.rows)
    ensures insertOk ==> transactions.rows == old(transactions.rows)
                           + [Transaction(old(transactions.nextId), helpingId, requestingId, 1, None, None, false, None, now)]
    ensures var key := Points.Key(helpingId, now);
      var current := if key in old(points.rows) then old(points.rows)[key].currentPoints else 0;
      var pointsDone := insertOk && selectOk && (key in old(points.rows) || pointsInsertOk) && pointsUpdateOk;
      && (pointsDone ==> points.rows == old(points.rows)[key := PointsRow(Points.Incremented(current, 1), MaxDailyPoints)])
      && (r.Ok? <==> pointsDone && updateOk)
      && (help.rows == if r.Ok? then Deactivate(old(help.rows), requestingId) else old(help.rows))
  {
    if !insertOk {
      return Err(HelpError);
    }
    var _ := transactions.Insert(helpingId, requestingId, 1, now);
    var incremented := Points.IncrementPoints(points, helpingId, 1, now, selectOk, pointsInsertOk, fetchOk, pointsUpdateOk);
    if incremented.Err? {
      return Err(incremented.error);
    }
    if !updateOk {
      return Err(HelpError);
    }
    help.rows := Deactivate(help.rows, requestingId);
    r := Ok(());
  }

  /** completeHelp leaves the helper's own request as it was. */
  lemma CompleteHelpKeepsHelper(rows: map<string, HelpRequest>, requestingId: string, helpingId: string)
    requires helpingId != requestingId && helpingId in rows
    ensures helpingId in Deactivate(rows, requestingId) && Deactivate(rows, requestingId)[helpingId] == rows[helpingId]
  {
  }

  /** One line of the class board. */
  datatype BoardEntry = BoardEntry(studentId: string, name: string, status: Option<HelpStatus>, isActive: bool)

  /** The board line of a student: the request's status only while it is active and not expired. */
  function BoardEntryFor(rows: map<string, HelpRequest>, s: Student, now: int): (e: BoardEntry)
    ensures e.studentId == s.id && e.name == s.name
    ensures e.status.Some? <==> Live(rows, s.id, now)
    ensures e.isActive <==> e.status.Some?
    ensures e.status.Some? ==> e.status.value == rows[s.id].status
  {
    if Live(rows, s.id, now) then BoardEntry(s.id, s.name, Some(rows[s.id].status), true)
    else BoardEntry(s.id, s.name, None, false)
  }

  /** The student's request is active but has run for more than 40 minutes. */
  predicate ExpiredFor(rows: map<string, HelpRequest>, s: Student, now: int) {
    s.id in rows && rows[s.id].isActive && Expired(rows[s.id], now)
  }

  /** The ids of the students whose active request has expired, in roster order. */
  function ExpiredIds(roster: seq<Student>, rows: map<string, HelpRequest>, now: int): (ids: seq<string>)
    ensures forall id :: id in ids <==> exists s :: s in roster && s.id == id && ExpiredFor(rows, s, now)
  {
    if roster == [] then []
    else
      var last := roster[|roster| - 1];
      var front := roster[..|roster| - 1];
      assert forall s :: s in roster <==> s in front || s == last;
      ExpiredIds(front, rows, now) + (if ExpiredFor(rows, last, now) then [last.id] else [])
  }

  /** The board's lines for a roster, in roster order. */
  function Board(roster: seq<Student>, rows: map<string, HelpRequest>, now: int): (b: seq<BoardEntry>)
    ensures |b| == |roster|
    ensures forall i :: 0 <= i < |roster| ==> b[i] == BoardEntryFor(rows, roster[i], now)
  {
    if roster == [] then [] else Board(roster[..|roster| - 1], rows, now) + [BoardEntryFor(rows, roster[|roster| - 1], now)]
  }

  /** The loop of getActiveHelpRequests: each student's board line, and the ids of the students
      whose active request has expired, collected on the way. */
  method CollectBoard(data: seq<Student>, rows: map<string, HelpRequest>, now: int)
    returns (result: seq<BoardEntry>, expiredStudentIds: seq<string>)
    ensures result == Board(data, rows, now)
    ensures expiredStudentIds == ExpiredIds(data, rows, now)
  {
    result := [];
    expiredStudentIds := [];
    var i := 0;
    while i < |data|
      invariant 0 <= i <= |data|
      invariant result == Board(data[..i], rows, now)
      invariant expiredStudentIds == ExpiredIds(data[..i], rows, now)
    {
      var student := data[i];
      var activeRequest: Option<HelpRequest> := None;
      if student.id in rows && rows[student.id].isActive {
        activeRequest := Some(rows[student.id]);
      }
      if activeRequest.Some? && now - activeRequest.value.startedAt > Time.SessionMs {
        expiredStudentIds := expiredStudentIds + [student.id];
        activeRequest := None;
      }
      var entry := BoardEntry(student.id, student.name,
                              if activeRequest.Some? then Some(activeRequest.value.status) else None,
                              activeRequest.Some?);
      assert data[..i + 1][..i] == data[..i];
      result := result + [entry];
      i := i + 1;
    }
    assert data[..i] == data;
  }

  /** getActiveHelpRequests: one line per student of the class in student-number order, then the
      expired requests found on the way deactivated in one update whose error is ignored. */
  method GetActiveHelpRequests(students: seq<Student>, help: HelpRequestsTable, classInfo: string, now: int,
                               queryOk: bool, updateOk: bool)
    returns (r: Result<seq<BoardEntry>, string>)
    modifies help
    ensures r.Ok? <==> Students.GetClassStudents(students, classInfo, queryOk).Ok?
    ensures r.Ok? ==> var roster := Students.GetClassStudents(students, classInfo, queryOk).value;
      && r.value == Board(roster, old(help.rows), now)
      && help.rows == if updateOk then DeactivateAll(old(help.rows), set id | id in ExpiredIds(roster, old(help.rows), now))
                      else old(help.rows)
    ensures r.Err? ==> help.rows == old(help.rows)
  {
    var query := Students.GetClassStudents(students, classInfo, queryOk);
    if query.Err? {
      return Err(query.error);
    }
    var result, expiredStudentIds := CollectBoard(query.value, help.rows, now);
    var ids := set id | id in expiredStudentIds;
    if |expiredStudentIds| > 0 && updateOk {
      help.rows := DeactivateAll(help.rows, ids);
    } else if updateOk {
      assert ids == {};
      assert DeactivateAll(help.rows, ids) == help.rows;
    }
    r := Ok(result);
  }

  /** After the board's batch update no student of the class has an active expired request, and
      rows of students outside the class are as they were. */
  lemma BoardClearsExpired(roster: seq<Student>, rows: map<string, HelpRequest>, now: int)
    ensures var after := DeactivateAll(rows, set id | id in ExpiredIds(roster, rows, now));
      && (forall s :: s in roster && s.id in after && after[s.id].isActive ==> !Expired(after[s.id], now))
      && (forall k :: k in rows && (forall s :: s in roster ==> s.id != k) ==> after[k] == rows[k])
  {
    var ids := set id | id in ExpiredIds(roster, rows, now);
    var after := DeactivateAll(rows, ids);
    forall s | s in roster && s.id in after && after[s.id].isActive
      ensures !Expired(after[s.id], now)
    {
      assert s.id !in ids;
      assert after[s.id] == rows[s.id];
    }
    forall k | k in rows && (forall s :: s in roster ==> s.id != k)
      ensures after[k] == rows[k]
    {
      assert k !in ids;
    }
  }

  /** A helper offered to the thank-you modal. */
  datatype HelperEntry = HelperEntry(studentId: string, name: string)

  /** The student's request is active with status 'helping' (no expiry check here). */
  predicate IsHelping(rows: map<string, HelpRequest>, s: Student) {
    s.id in rows && rows[s.id].isActive && rows[s.id].status == Helping
  }

  /** getHelpingStudents: the class's students whose request is active and 'helping', in
      student-number order. */
  function GetHelpingStudents(students: seq<Student>, rows: map<string, HelpRequest>, classInfo: string, queryOk: bool)
    : Result<seq<HelperEntry>, string>
  {
    match Students.GetClassStudents(students, classInfo, queryOk)
    case Err(e) => Err(e)
    case Ok(roster) =>
      var helping := Sorting.Filter(roster, s => IsHelping(rows, s));
      Ok(Sorting.MapSeq(helping, (s: Student) => HelperEntry(s.id, s.name)))
  }

  /** The helping students of a roster, as modal entries: every helping student of the roster
      is listed and every entry is one. */
  lemma HelpingEntries(roster: seq<Student>, rows: map<string, HelpRequest>)
    ensures var r := Sorting.MapSeq(Sorting.Filter(roster, s => IsHelping(rows, s)), (s: Student) => HelperEntry(s.id, s.name));
      && (forall s :: s in roster && IsHelping(rows, s) ==> HelperEntry(s.id, s.name) in r)
      && (forall e :: e in r ==> exists s :: s in roster && IsHelping(rows, s) && e == HelperEntry(s.id, s.name))
  {
    HelpingEntriesComplete(roster, rows);
    HelpingEntriesSound(roster, rows);
  }

  lemma HelpingEntriesComplete(roster: seq<Student>, rows: map<string, HelpRequest>)
    ensures var r := Sorting.MapSeq(Sorting.Filter(roster, s => IsHelping(rows, s)), (s: Student) => HelperEntry(s.id, s.name));
      forall s :: s in roster && IsHelping(rows, s) ==> HelperEntry(s.id, s.name) in r
  {
    var p := (s: Student) => IsHelping(rows, s);
    var helping := Sorting.Filter(roster, p);
    Sorting.FilterMembers(roster, p);
    var f := (s: Student) => HelperEntry(s.id, s.name);
    var r := Sorting.MapSeq(helping, f);
    forall s | s in roster && IsHelping(rows, s)
      ensures HelperEntry(s.id, s.name) in r
    {
      assert s in helping;
      var i :| 0 <= i < |helping| && helping[i] == s;
      assert r[i] == f(s);
    }
  }

  lemma HelpingEntriesSound(roster: seq<Student>, rows: map<string, HelpRequest>)
    ensures var r := Sorting.MapSeq(Sorting.Filter(roster, s => IsHelping(rows, s)), (s: Student) => HelperEntry(s.id, s.name));
      forall e :: e in r ==> exists s :: s in roster && IsHelping(rows, s) && e == HelperEntry(s.id, s.name)
  {
    var p := (s: Student) => IsHelping(rows, s);
    var helping := Sorting.Filter(roster, p);
    Sorting.FilterMembers(roster, p);
    var f := (s: Student) => HelperEntry(s.id, s.name);
    var r := Sorting.MapSeq(helping, f);
    forall e | e in r
      ensures exists s :: s in roster && IsHelping(rows, s) && e == HelperEntry(s.id, s.name)
    {
      var i :| 0 <= i < |r| && r[i] == e;
      assert helping[i] in helping;
    }
  }

  /** For a class "G-C" of digits, the modal lists exactly the class's helping students. */
  lemma HelpingStudentsSpec(students: seq<Student>, rows: map<string, HelpRequest>, g: string, c: string)
    requires Text.AllDigits(g) && Text.AllDigits(c)
    ensures var r := GetHelpingStudents(students, rows, g + "-" + c, true);
      var grade := Text.DigitsValue(g) as int;
      var classNumber := Text.DigitsValue(c) as int;
      && r.Ok?
      && (forall s :: s in students && Students.InClass(s, grade, classNumber) && IsHelping(rows, s)
            ==> HelperEntry(s.id, s.name) in r.value)
      && (forall e :: e in r.value ==>
            (exists s :: s in students && Students.InClass(s, grade, classNumber) && IsHelping(rows, s) && e == HelperEntry(s.id, s.name)))
  {
    var grade := Text.DigitsValue(g) as int;
    var classNumber := Text.DigitsValue(c) as int;
    Students.GetClassStudentsAgrees(students, g, c, true);
    var roster := Students.StudentsByClass(students, grade, classNumber);
    Students.StudentsByClassSpec(students, grade, classNumber);
    HelpingEntries(roster, rows);
  }
}
