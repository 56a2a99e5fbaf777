/** The student's three help buttons: "도와줄래?" (src/modules/student/HelpNeedButton.jsx) and
    "도와줄게!" (src/modules/student/HelpGiveButton.jsx), the same toggle for the status each
    owns, and "고마워" (src/modules/student/HelpThanksButton.jsx), which thanks a helper with a
    point. Every database answer is an input. */
module HelpButtons {
  import opened Wrappers
  import opened Text
  import opened Database
  import Format
  import Points
  import Help

  const NoLogin := "로그인 정보를 찾을 수 없습니다."
  const OtherActive := "이미 다른 상태가 활성화되어 있습니다."
  const ProcessFailed := "처리 중 오류가 발생했습니다."
  const OnlyWhenRequesting := "도움을 요청한 상태에서만 사용할 수 있습니다."
  const NoHelpers := "현재 도와주는 중인 학생이 없습니다."
  const HelpersFailed := "학생 목록을 불러올 수 없습니다."
  const ChooseHelper := "도와준 학생을 선택해주세요."
  const HelperAtLimit := "선택한 학생이 이미 포인트 한도에 도달했습니다."
  const Granted := "포인트가 지급되었습니다!"
  const GrantFailed := "포인트 지급 중 오류가 발생했습니다."

  /** checkMyStatus, shared by the three buttons: with a stored id, the status of the
      student's live request, or none; a failed lookup keeps the status shown. */
  method CheckMyStatus(t: HelpRequestsTable, studentId: Option<string>, now: int, selectOk: bool, updateOk: bool,
                       shown: Option<HelpStatus>)
    returns (status: Option<HelpStatus>)
    modifies t
    ensures !Truthy(studentId) ==> status == shown && t.rows == old(t.rows)
    ensures Truthy(studentId) && !selectOk ==> status == shown && t.rows == old(t.rows)
    ensures Truthy(studentId) && selectOk ==>
      && (status.Some? <==> Help.Live(old(t.rows), studentId.value, now))
      && (status.Some? ==> status.value == old(t.rows)[studentId.value].status)
      && t.rows == if updateOk then Help.ExpireOnRead(old(t.rows), studentId.value, now) else old(t.rows)
  {
    status := shown;
    if Truthy(studentId) {
      var r := Help.GetMyActiveRequest(t, studentId.value, now, selectOk, updateOk);
      if r.Ok? {
        status := if r.value.Some? then Some(r.value.value.status) else None;
      }
    }
  }

  /** A "도와줄래?" (`own` = Requesting) or "도와줄게!" (`own` = Helping) button. */
  class HelpButton {
    const own: HelpStatus
    var myStatus: Option<HelpStatus>
    var loading: bool

    constructor (own: HelpStatus)
      ensures this.own == own && myStatus.None? && !loading
    {
      this.own := own;
      myStatus, loading := None, false;
    }

    /** The button is disabled while loading and while the other status is active. */
    predicate Enabled()
      reads this
    {
      !loading && (myStatus.None? || myStatus == Some(own))
    }

    method Refresh(t: HelpRequestsTable, studentId: Option<string>, now: int, selectOk: bool, updateOk: bool)
      modifies this, t
      ensures !Truthy(studentId) || !selectOk ==> myStatus == old(myStatus)
      ensures Truthy(studentId) && selectOk ==>
        && (myStatus.Some? <==> Help.Live(old(t.rows), studentId.value, now))
        && (myStatus.Some? ==> myStatus.value == old(t.rows)[studentId.value].status)
      ensures t.rows == if Truthy(studentId) && selectOk && updateOk
                        then Help.ExpireOnRead(old(t.rows), studentId.value, now) else old(t.rows)
      ensures loading == old(loading)
    {
      myStatus := CheckMyStatus(t, studentId, now, selectOk, updateOk, myStatus);
    }

    /** handleClick: ignored while loading; without a stored id only an alert. From the own
        status the request is cancelled and the status cleared; from none a request with the
        own status is created; from the other status only an alert. A failed call alerts and
        keeps the status. */
    method Click(t: HelpRequestsTable, studentId: Option<string>, now: int,
                 deactivateOk: bool, upsertOk: bool, updateOk: bool)
      returns (alert: Option<string>)
      modifies this, t
      ensures loading == old(loading)
      ensures old(loading) ==> alert.None? && myStatus == old(myStatus) && t.rows == old(t.rows)
      ensures !old(loading) && !Truthy(studentId) ==> alert == Some(NoLogin) && myStatus == old(myStatus) && t.rows == old(t.rows)
      ensures !old(loading) && Truthy(studentId) ==>
        var id := studentId.value;
        && (old(myStatus) == Some(own) ==>
              var cancelled := updateOk && id in old(t.rows) && old(t.rows)[id].isActive;
              && (cancelled ==> alert.None? && myStatus.None? && t.rows == Help.Deactivate(old(t.rows), id)
                                && !Help.Live(t.rows, id, now))
              && (!cancelled ==> alert == Some(ProcessFailed) && myStatus == old(myStatus) && t.rows == old(t.rows)))
        && (old(myStatus).None? ==>
              && (upsertOk ==> alert.None? && myStatus == Some(own)
                               && t.rows == old(t.rows)[id := HelpRequest(own, true, now)]
                               && Help.Live(t.rows, id, now) && t.rows[id].status == own)
              && (!upsertOk ==> alert == Some(ProcessFailed) && myStatus == old(myStatus)
                                && t.rows == if deactivateOk then Help.Deactivate(old(t.rows), id) else old(t.rows)))
        && (old(myStatus).Some? && old(myStatus) != Some(own) ==>
              alert == Some(OtherActive) && myStatus == old(myStatus) && t.rows == old(t.rows))
    {
      alert := None;
      if loading {
        return;
      }
      if !Truthy(studentId) {
        return Some(NoLogin);
      }
      var id := studentId.value;
      if myStatus == Some(own) {
        var r := Help.CancelHelpRequest(t, id, updateOk);
        if r.Ok? {
          myStatus := None;
        } else {
          alert := Some(ProcessFailed);
        }
      } else if myStatus.None? {
        var r := Help.CreateHelpRequest(t, id, own, now, deactivateOk, upsertOk);
        if r.Ok? {
          myStatus := Some(own);
        } else {
          alert := Some(ProcessFailed);
        }
      } else {
        alert := Some(OtherActive);
      }
    }
  }

  /** getHelpingStudents for the class of the stored id; an id that parseStudentId refuses is
      an error. */
  function HelpersFor(students: seq<Student>, rows: map<string, HelpRequest>, studentId: Option<string>, queryOk: bool)
    : (r: Result<seq<Help.HelperEntry>, string>)
    ensures Format.ClassOfStudentId(studentId).None? ==> r.Err?
    ensures Format.ClassOfStudentId(studentId).Some? ==>
      r == Help.GetHelpingStudents(students, rows, Format.ClassOfStudentId(studentId).value, queryOk)
  {
    var classInfo := Format.ClassOfStudentId(studentId);
    if classInfo.None? then Err(HelpersFailed) else Help.GetHelpingStudents(students, rows, classInfo.value, queryOk)
  }

  /** For a four-digit id, the helpers offered are exactly the helping students of the class
      its first two digits name. */
  lemma HelpersForDigitId(students: seq<Student>, rows: map<string, HelpRequest>, id: string)
    requires |id| == 4 && AllDigits(id)
    ensures var r := HelpersFor(students, rows, Some(id), true);
      && r.Ok?
      && (forall s :: s in students && s.grade == DigitVal(id[0]) && s.classNumber == DigitVal(id[1]) && Help.IsHelping(rows, s)
            ==> Help.HelperEntry(s.id, s.name) in r.value)
      && (forall e :: e in r.value ==>
            exists s :: s in students && s.grade == DigitVal(id[0]) && s.classNumber == DigitVal(id[1])
                        && Help.IsHelping(rows, s) && e == Help.HelperEntry(s.id, s.name))
  {
    Format.ClassOfDigitId(id);
    var g := NatToString(DigitVal(id[0]));
    var c := NatToString(DigitVal(id[1]));
    NatToStringRoundTrip(DigitVal(id[0]));
    NatToStringRoundTrip(DigitVal(id[1]));
    Help.HelpingStudentsSpec(students, rows, g, c);
  }

  /** The "고마워" button and its helper modal. */
  class ThanksButton {
    var myStatus: Option<HelpStatus>
    var showModal: bool
    var helpers: seq<Help.HelperEntry>
    var selected: Option<string>

    constructor ()
      ensures myStatus.None? && !showModal && helpers == [] && selected.None?
    {
      myStatus, showModal, helpers, selected := None, false, [], None;
    }

    /** The button is usable only while the student is asking for help. */
    predicate Enabled()
      reads this
    {
      myStatus == Some(Requesting)
    }

    method Refresh(t: HelpRequestsTable, studentId: Option<string>, now: int, selectOk: bool, updateOk: bool)
      modifies this, t
      ensures !Truthy(studentId) || !selectOk ==> myStatus == old(myStatus)
      ensures Truthy(studentId) && selectOk ==>
        && (myStatus.Some? <==> Help.Live(old(t.rows), studentId.value, now))
        && (myStatus.Some? ==> myStatus.value == old(t.rows)[studentId.value].status)
      ensures t.rows == if Truthy(studentId) && selectOk && updateOk
                        then Help.ExpireOnRead(old(t.rows), studentId.value, now) else old(t.rows)
      ensures showModal == old(showModal) && helpers == old(helpers) && selected == old(selected)
    {
      myStatus := CheckMyStatus(t, studentId, now, selectOk, updateOk, myStatus);
    }

    /** handleClick, given the answer of HelpersFor: only while requesting; the modal opens on
        a non-empty list of helpers, otherwise an alert. */
    method Click(studentId: Option<string>, answer: Result<seq<Help.HelperEntry>, string>) returns (alert: Option<string>)
      modifies this
      ensures !Truthy(studentId) ==> alert == Some(NoLogin) && showModal == old(showModal) && helpers == old(helpers)
      ensures Truthy(studentId) && !old(Enabled()) ==> alert == Some(OnlyWhenRequesting) && showModal == old(showModal) && helpers == old(helpers)
      ensures Truthy(studentId) && old(Enabled()) ==>
        && (answer.Err? ==> alert == Some(HelpersFailed) && showModal == old(showModal) && helpers == old(helpers))
        && (answer == Ok([]) ==> alert == Some(NoHelpers) && showModal == old(showModal) && helpers == old(helpers))
        && (answer.Ok? && answer.value != [] ==> alert.None? && showModal && helpers == answer.value)
      ensures myStatus == old(myStatus) && selected == old(selected)
    {
      alert := None;
      if !Truthy(studentId) {
        alert := Some(NoLogin);
      } else if myStatus != Some(Requesting) {
        alert := Some(OnlyWhenRequesting);
      } else if answer.Err? {
        alert := Some(HelpersFailed);
      } else if answer.value == [] {
        alert := Some(NoHelpers);
      } else {
        helpers := answer.value;
        showModal := true;
      }
    }

    /** Picking a helper in the modal. */
    method Choose(helperId: string)
      modifies this
      ensures selected == Some(helperId)
      ensures myStatus == old(myStatus) && showModal == old(showModal) && helpers == old(helpers)
    {
      selected := Some(helperId);
    }

    /** The modal's cancel button. */
    method CloseModal()
      modifies this
      ensures !showModal && selected.None?
      ensures myStatus == old(myStatus) && helpers == old(helpers)
    {
      showModal, selected := false, None;
    }

    /** handleConfirm: a helper must be chosen; a helper who already has the day's maximum of
        points is refused; otherwise completeHelp gives the helper a point and ends the
        student's request, and the modal closes with the status cleared. Any failed call
        alerts and keeps the status. */
    method Confirm(help: HelpRequestsTable, points: DailyPointsTable, transactions: TransactionsTable,
                   studentId: Option<string>, now: int,
                   selectOk: bool, insertOk: bool, fetchOk: bool,
                   txOk: bool, pointsSelectOk: bool, pointsInsertOk: bool, pointsFetchOk: bool, pointsUpdateOk: bool,
                   updateOk: bool)
      returns (alert: Option<string>, granted: bool)
      requires points.Valid() && transactions.Valid()
      modifies this, help, points, transactions
      ensures points.Valid() && transactions.Valid()
      ensures !Truthy(old(selected)) ==> alert == Some(ChooseHelper) && !granted
      ensures Truthy(old(selected)) && !Truthy(studentId) ==> alert.None? && !granted
      ensures var key := Points.Key(if old(selected).Some? then old(selected).value else "", now);
        var known := if key in old(points.rows) then selectOk else selectOk && insertOk;
        var current := if key in old(points.rows) then old(points.rows)[key].currentPoints else 0;
        && (Truthy(old(selected)) && Truthy(studentId) && !known ==> alert == Some(GrantFailed) && !granted)
        && (Truthy(old(selected)) && Truthy(studentId) && known && current >= MaxDailyPoints ==>
              alert == Some(HelperAtLimit) && !granted && transactions.rows == old(transactions.rows))
        && (granted ==> known && current < MaxDailyPoints)
      ensures granted ==> && alert == Some(Granted) && myStatus.None? && !showModal && selected.None?
                          && help.rows == Help.Deactivate(old(help.rows), studentId.value)
      ensures !granted ==> help.rows == old(help.rows)
      ensures !granted ==> myStatus == old(myStatus) && showModal == old(showModal) && selected == old(selected)
      ensures helpers == old(helpers)
    {
      alert, granted := None, false;
      if !Truthy(selected) {
        alert := Some(ChooseHelper);
        return;
      }
      if !Truthy(studentId) {
        return;
      }
      var helper := selected.value;
      var p := Points.GetDailyPoints(points, helper, now, selectOk, insertOk, fetchOk);
      if p.Err? {
        alert := Some(GrantFailed);
        return;
      }
      if p.value.currentPoints >= MaxDailyPoints {
        alert := Some(HelperAtLimit);
        return;
      }
      var r := Help.CompleteHelp(help, points, transactions, studentId.value, helper, now,
                                 txOk, pointsSelectOk, pointsInsertOk, pointsFetchOk, pointsUpdateOk, updateOk);
      if r.Err? {
        alert := Some(GrantFailed);
        return;
      }
      showModal, myStatus, selected := false, None, None;
      alert, granted := Some(Granted), true;
    }
  }
}
