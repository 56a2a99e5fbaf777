/** The teacher's friend-vote tab (src/modules/admin/FriendVoteManagement.jsx): the three
    questions, a vote that is idle, running or completed, the session it runs in and the
    results read when it ends. Every database answer is an input. */
module FriendVoteManagement {
  import opened Wrappers
  import opened Text
  import Votes

  /** `voteStatus`: 'idle', 'active' or 'completed'. */
  datatype TabStatus = Idle | Running | Done

  const DefaultQuestion1 := "내 말을 경청하고 친절하게 대해준 친구"
  const DefaultQuestion2 := "잘은 못해도 열심히 노력한 친구"
  const DefaultQuestion3 := "자신감 있게 말하고 실력이 뛰어난 친구"

  const MissingQuestion := "모든 질문을 입력하세요"
  const Started := "✅ 투표가 시작되었습니다!"
  const StartFailed := "투표 시작 중 오류가 발생했습니다."
  const NoActiveSession := "활성 세션이 없습니다."
  const ResultsFailed := "결과 조회 중 오류가 발생했습니다."
  const NoSessionToReset := "리셋할 세션이 없습니다."
  const WasReset := "✅ 투표가 리셋되었습니다."
  const ResetFailed := "리셋 중 오류가 발생했습니다."

  /** The tab's state. */
  class VoteTab {
    var status: TabStatus
    var session: Option<int>
    var question1: string
    var question2: string
    var question3: string
    var results: Option<Votes.VoteResults>
    var settingsOpen: bool
    var resultsOpen: bool

    /** The tab holds a session exactly when the vote is not idle, and a completed vote has
        its results. */
    predicate Valid()
      reads this
    {
      && (status == Idle <==> session.None?)
      && (status == Done ==> results.Some?)
    }

    /** The question inputs are enabled only while idle. */
    predicate Editable()
      reads this
    {
      status == Idle
    }

    constructor ()
      ensures Valid() && status == Idle && session.None? && results.None?
      ensures question1 == DefaultQuestion1 && question2 == DefaultQuestion2 && question3 == DefaultQuestion3
      ensures settingsOpen && !resultsOpen
    {
      status, session, results := Idle, None, None;
      question1, question2, question3 := DefaultQuestion1, DefaultQuestion2, DefaultQuestion3;
      settingsOpen, resultsOpen := true, false;
    }

    /** loadActiveSession: an active session found on opening the tab is taken over with its
        questions; without one, or when the lookup fails, nothing changes. */
    method LoadActiveSession(rpc: Result<seq<(int, Votes.VoteSession)>, string>)
      requires Valid()
      modifies this
      ensures Valid()
      ensures var found := Votes.GetActiveVoteSession(rpc);
        && (found.None? ==> status == old(status) && session == old(session)
                            && (question1, question2, question3) == old((question1, question2, question3))
                            && settingsOpen == old(settingsOpen) && resultsOpen == old(resultsOpen))
        && (found.Some? ==> status == Running && session == Some(found.value.0)
                            && question1 == found.value.1.question1 && question2 == found.value.1.question2
                            && question3 == found.value.1.question3 && settingsOpen && !resultsOpen)
      ensures results == old(results)
    {
      var found := Votes.GetActiveVoteSession(rpc);
      if found.Some? {
        var (id, row) := found.value;
        session := Some(id);
        question1, question2, question3 := row.question1, row.question2, row.question3;
        status := Running;
        settingsOpen, resultsOpen := true, false;
      }
    }

    /** handleStartVote: refused unless all three questions are filled in; otherwise a session
        with the three questions is started and the vote runs in it. A failed start leaves the
        tab as it was. */
    method StartVote(t: Votes.VoteSessionsTable, now: int, selectOk: bool, updateOk: bool, insertOk: bool)
      returns (alert: string)
      requires Valid() && t.Valid()
      modifies this, t
      ensures Valid() && t.Valid()
      ensures IsBlank(old(question1)) || IsBlank(old(question2)) || IsBlank(old(question3)) ==>
        alert == MissingQuestion && status == old(status) && session == old(session) && t.rows == old(t.rows)
      ensures !IsBlank(old(question1)) && !IsBlank(old(question2)) && !IsBlank(old(question3)) && insertOk ==>
        && alert == Started && status == Running && session.Some? && session.value !in old(t.rows)
        && session.value in t.rows && t.rows[session.value] == Votes.VoteSession(Votes.Active, question1, question2, question3, now, None)
        && settingsOpen && !resultsOpen
      ensures !IsBlank(old(question1)) && !IsBlank(old(question2)) && !IsBlank(old(question3)) && !insertOk ==>
        alert == StartFailed && status == old(status) && session == old(session)
        && settingsOpen == old(settingsOpen) && resultsOpen == old(resultsOpen)
      ensures !IsBlank(old(question1)) && !IsBlank(old(question2)) && !IsBlank(old(question3)) ==>
        var before := if selectOk && updateOk then Votes.CompleteActive(old(t.rows), now) else old(t.rows);
        && (insertOk ==> t.rows == before[session.value := Votes.VoteSession(Votes.Active, question1, question2, question3, now, None)])
        && (!insertOk ==> t.rows == before)
      ensures question1 == old(question1) && question2 == old(question2) && question3 == old(question3)
      ensures results == old(results)
    {
      if IsBlank(question1) || IsBlank(question2) || IsBlank(question3) {
        return MissingQuestion;
      }
      var r := Votes.StartVoteSession(t, question1, question2, question3, now, selectOk, updateOk, insertOk);
      if r.Err? {
        return StartFailed;
      }
      session := Some(r.value);
      status := Running;
      settingsOpen, resultsOpen := true, false;
      alert := Started;
    }

    /** handleEndAndViewResults: without a session only an alert; otherwise the session is
        completed and its results are read, and the vote is completed with those results.
        When either call fails the vote stays where it was. */
    method EndAndViewResults(t: Votes.VoteSessionsTable, now: int, updateOk: bool,
                             rpc: Result<seq<Votes.ResultRow>, string>)
      returns (alert: Option<string>)
      requires Valid() && t.Valid()
      modifies this, t
      ensures Valid() && t.Valid()
      ensures old(session).None? ==> alert == Some(NoActiveSession) && status == old(status) && t.rows == old(t.rows)
      ensures old(session).Some? ==>
        var ended := updateOk && old(session).value in old(t.rows);
        && (ended ==> old(session).value in t.rows && t.rows[old(session).value].status == Votes.Completed
                      && t.rows == old(t.rows)[old(session).value := old(t.rows)[old(session).value].(status := Votes.Completed, endedAt := Some(now))])
        && (!ended ==> t.rows == old(t.rows))
        && (ended && rpc.Ok? ==> alert.None? && status == Done && !settingsOpen && resultsOpen
                                 && results == Some(Votes.VoteResults(Votes.ItemsOf(rpc.value, 1),
                                                                      Votes.ItemsOf(rpc.value, 2),
                                                                      Votes.ItemsOf(rpc.value, 3))))
        && (!(ended && rpc.Ok?) ==> alert == Some(ResultsFailed) && status == old(status) && results == old(results)
                                    && settingsOpen == old(settingsOpen) && resultsOpen == old(resultsOpen))
      ensures session == old(session)
      ensures question1 == old(question1) && question2 == old(question2) && question3 == old(question3)
    {
      if session.None? {
        return Some(NoActiveSession);
      }
      var e := Votes.EndVoteSession(t, session.value, now, updateOk);
      if e.Err? {
        return Some(ResultsFailed);
      }
      var r := Votes.GetVoteResults(rpc);
      if r.Err? {
        return Some(ResultsFailed);
      }
      results := Some(r.value);
      status := Done;
      settingsOpen, resultsOpen := false, true;
      alert := None;
    }

    /** handleResetVote: after confirmation, the session and its ballots are deleted and the
        tab is idle again, without session or results. A refusal, a missing session or a
        failed delete leaves the tab as it was. */
    method ResetVote(t: Votes.VoteSessionsTable, votes: Votes.VotesTable, confirmed: bool, deleteOk: bool)
      returns (alert: Option<string>)
      requires Valid() && t.Valid()
      modifies this, t, votes
      ensures Valid() && t.Valid()
      ensures !confirmed ==> alert.None? && t.rows == old(t.rows) && votes.rows == old(votes.rows)
      ensures confirmed && old(session).None? ==> alert == Some(NoSessionToReset) && t.rows == old(t.rows)
      ensures confirmed && old(session).Some? && deleteOk ==>
        && alert == Some(WasReset) && status == Idle && session.None? && results.None? && settingsOpen && !resultsOpen
        && t.rows == old(t.rows) - {old(session).value}
        && votes.rows == Votes.BallotsWithout(old(votes.rows), old(session).value)
      ensures confirmed && old(session).Some? && !deleteOk ==> alert == Some(ResetFailed) && t.rows == old(t.rows)
      ensures !(confirmed && old(session).Some? && deleteOk) ==>
        && status == old(status) && session == old(session) && results == old(results)
        && settingsOpen == old(settingsOpen) && resultsOpen == old(resultsOpen)
      ensures question1 == old(question1) && question2 == old(question2) && question3 == old(question3)
    {
      alert := None;
      if confirmed && session.None? {
        alert := Some(NoSessionToReset);
      } else if confirmed {
        var r := Votes.ResetVote(t, votes, session.value, deleteOk);
        if r.Ok? {
          Clear();
          alert := Some(WasReset);
        } else {
          alert := Some(ResetFailed);
        }
      }
    }

    /** The tab after a reset: idle, with neither session nor results. */
    method Clear()
      modifies this
      ensures Valid() && status == Idle && session.None? && results.None? && settingsOpen && !resultsOpen
      ensures question1 == old(question1) && question2 == old(question2) && question3 == old(question3)
    {
      session, results := None, None;
      status := Idle;
      settingsOpen, resultsOpen := true, false;
    }

    /** Typing into question `k` (1, 2 or 3), which the tab allows only while idle. */
    method SetQuestion(k: int, value: string)
      requires Editable() && 1 <= k <= 3
      modifies this
      ensures question1 == (if k == 1 then value else old(question1))
      ensures question2 == (if k == 2 then value else old(question2))
      ensures question3 == (if k == 3 then value else old(question3))
      ensures status == old(status) && session == old(session) && results == old(results)
      ensures settingsOpen == old(settingsOpen) && resultsOpen == old(resultsOpen)
    {
      if k == 1 {
        question1 := value;
      } else if k == 2 {
        question2 := value;
      } else {
        question3 := value;
      }
    }

    /** The two section headers each open or close their own section. */
    method ToggleSection(settings: bool)
      modifies this
      ensures settings ==> settingsOpen == !old(settingsOpen) && resultsOpen == old(resultsOpen)
      ensures !settings ==> resultsOpen == !old(resultsOpen) && settingsOpen == old(settingsOpen)
      ensures status == old(status) && session == old(session) && results == old(results)
      ensures question1 == old(question1) && question2 == old(question2) && question3 == old(question3)
    {
      if settings {
        settingsOpen := !settingsOpen;
      } else {
        resultsOpen := !resultsOpen;
      }
    }
  }
}
