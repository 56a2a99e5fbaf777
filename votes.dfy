/** The friend vote: vote sessions with three questions, one ballot per voter and session, the
    results grouped by question (src/services/voteService.js). The stored procedures
    (`get_vote_results`, `get_active_vote_session`, `has_student_voted`) are not part of this
    model; their answers are inputs. Every database call is a boolean outcome parameter. */
module Votes {
  import opened Wrappers
  import Sorting

  const VoteError := "투표 처리 실패"

  datatype VoteStatus = Active | Completed

  datatype VoteSession = VoteSession(status: VoteStatus, question1: string, question2: string, question3: string,
                                     startedAt: int, endedAt: Option<int>)

  /** `vote_sessions`, keyed by the id the database assigns; `nextId` stands for the id generator. */
  class VoteSessionsTable {
    var rows: map<int, VoteSession>
    var nextId: int

    predicate Valid()
      reads this
    {
      forall k :: k in rows ==> k < nextId
    }

    constructor ()
      ensures rows == map[] && Valid()
    {
      rows := map[];
      nextId := 0;
    }
  }

  /** A row of `votes`: the voter's choice for each of the three questions. */
  datatype Ballot = Ballot(sessionId: int, voterId: string, choice1: string, choice2: string, choice3: string)

  /** At most one ballot per (session, voter). */
  predicate OneBallotEach(rows: seq<Ballot>) {
    forall i, j :: 0 <= i < j < |rows| ==> (rows[i].sessionId, rows[i].voterId) != (rows[j].sessionId, rows[j].voterId)
  }

  class VotesTable {
    var rows: seq<Ballot>

    constructor ()
      ensures rows == []
    {
      rows := [];
    }
  }

  /** Every active session completed at `now` (`update(...).eq('status', 'active')`). */
  function CompleteActive(rows: map<int, VoteSession>, now: int): (r: map<int, VoteSession>)
    ensures r.Keys == rows.Keys
    ensures forall k :: k in rows && rows[k].status == Active ==> r[k] == rows[k].(status := Completed, endedAt := Some(now))
    ensures forall k :: k in rows && rows[k].status != Active ==> r[k] == rows[k]
    ensures forall k :: k in r ==> r[k].status == Completed
  {
    map k | k in rows :: if rows[k].status == Active then rows[k].(status := Completed, endedAt := Some(now)) else rows[k]
  }

  /** startVoteSession: completes the active sessions (both the lookup and the update may fail
      unnoticed), then inserts an active session with the three questions. */
  method StartVoteSession(t: VoteSessionsTable, question1: string, question2: string, question3: string, now: int,
                          selectOk: bool, updateOk: bool, insertOk: bool)
    returns (r: Result<int, string>)
    requires t.Valid()
    modifies t
    ensures t.Valid()
    ensures var before := if selectOk && updateOk then CompleteActive(old(t.rows), now) else old(t.rows);
      && (r.Ok? <==> insertOk)
      && (r.Err? ==> t.rows == before)
      && (r.Ok? ==> r.value !in old(t.rows)
                    && t.rows == before[r.value := VoteSession(Active, question1, question2, question3, now, None)])
  {
    if selectOk && updateOk {
      t.rows := CompleteActive(t.rows, now);
    }
    if !insertOk {
      return Err(VoteError);
    }
    var id := t.nextId;
    t.nextId := t.nextId + 1;
    t.rows := t.rows[id := VoteSession(Active, question1, question2, question3, now, None)];
    r := Ok(id);
  }

  /** When the earlier sessions were completed, the new session is the only active one. */
  lemma StartLeavesOneActive(rows: map<int, VoteSession>, id: int, s: VoteSession, now: int)
    requires s.status == Active
    ensures var after := CompleteActive(rows, now)[id := s];
      forall k :: k in after ==> (after[k].status == Active <==> k == id)
  {
  }

  /** endVoteSession: completes the given session; without such a row `.single()` fails. */
  method EndVoteSession(t: VoteSessionsTable, sessionId: int, now: int, updateOk: bool)
    returns (r: Result<VoteSession, string>)
    requires t.Valid()
    modifies t
    ensures t.Valid()
    ensures r.Ok? <==> updateOk && sessionId in old(t.rows)
    ensures r.Ok? ==> r.value == old(t.rows)[sessionId].(status := Completed, endedAt := Some(now))
                      && t.rows == old(t.rows)[sessionId := r.value]
    ensures r.Err? ==> t.rows == old(t.rows)
  {
    if !updateOk || sessionId !in t.rows {
      return Err(VoteError);
    }
    var ended := t.rows[sessionId].(status := Completed, endedAt := Some(now));
    t.rows := t.rows[sessionId := ended];
    r := Ok(ended);
  }

  /** The ballots that survive deleting a session (`ON DELETE CASCADE`). */
  function BallotsWithout(rows: seq<Ballot>, sessionId: int): (r: seq<Ballot>)
    ensures forall b :: b in r <==> b in rows && b.sessionId != sessionId
  {
    Sorting.FilterMembers(rows, (b: Ballot) => b.sessionId != sessionId);
    Sorting.Filter(rows, (b: Ballot) => b.sessionId != sessionId)
  }

  /** resetVote: deletes the session and, by the cascade, its ballots. */
  method ResetVote(t: VoteSessionsTable, votes: VotesTable, sessionId: int, deleteOk: bool)
    returns (r: Result<(), string>)
    requires t.Valid()
    modifies t, votes
    ensures t.Valid()
    ensures r.Ok? <==> deleteOk
    ensures t.rows == if deleteOk then old(t.rows) - {sessionId} else old(t.rows)
    ensures votes.rows == if deleteOk then BallotsWithout(old(votes.rows), sessionId) else old(votes.rows)
  {
    if !deleteOk {
      return Err(VoteError);
    }
    t.rows := t.rows - {sessionId};
    votes.rows := BallotsWithout(votes.rows, sessionId);
    r := Ok(());
  }

  /** The position of the (session, voter) ballot. */
  function FindBallot(rows: seq<Ballot>, sessionId: int, voterId: string): (r: Option<nat>)
    ensures r.Some? ==> r.value < |rows| && rows[r.value].sessionId == sessionId && rows[r.value].voterId == voterId
    ensures r.None? ==> forall i :: 0 <= i < |rows| ==> !(rows[i].sessionId == sessionId && rows[i].voterId == voterId)
  {
    if rows == [] then None
    else if rows[0].sessionId == sessionId && rows[0].voterId == voterId then Some(0)
    else match FindBallot(rows[1..], sessionId, voterId)
      case None => None
      case Some(i) => Some(i + 1)
  }

  /** The number of ballots of (session, voter). */
  function MatchCount(rows: seq<Ballot>, sessionId: int, voterId: string): nat {
    if rows == [] then 0
    else (if rows[0].sessionId == sessionId && rows[0].voterId == voterId then 1 else 0) + MatchCount(rows[1..], sessionId, voterId)
  }

  /** Some ballot matches exactly when the lookup by position finds one. */
  lemma {:induction false} MatchCountFinds(rows: seq<Ballot>, sessionId: int, voterId: string)
    ensures MatchCount(rows, sessionId, voterId) > 0 <==> FindBallot(rows, sessionId, voterId).Some?
  {
    if rows != [] {
      MatchCountFinds(rows[1..], sessionId, voterId);
    }
  }

  /** With one ballot per (session, voter), no pair matches twice. */
  lemma {:induction false} OneBallotEachMatchesOnce(rows: seq<Ballot>, sessionId: int, voterId: string)
    ensures OneBallotEach(rows) ==> MatchCount(rows, sessionId, voterId) <= 1
  {
    if rows != [] && OneBallotEach(rows) {
      var tail := rows[1..];
      assert OneBallotEach(tail) by {
        forall i, j | 0 <= i < j < |tail|
          ensures (tail[i].sessionId, tail[i].voterId) != (tail[j].sessionId, tail[j].voterId)
        {
          assert tail[i] == rows[i + 1] && tail[j] == rows[j + 1];
        }
      }
      OneBallotEachMatchesOnce(tail, sessionId, voterId);
      if rows[0].sessionId == sessionId && rows[0].voterId == voterId {
        forall i | 0 <= i < |tail|
          ensures !(tail[i].sessionId == sessionId && tail[i].voterId == voterId)
        {
          assert tail[i] == rows[i + 1];
        }
        MatchCountFinds(tail, sessionId, voterId);
      }
    }
  }

  /** `.single()` on the (session, voter) lookup: the position of the voter's ballot when exactly
      one matches; nothing when the lookup fails, when nothing matches, and when several match
      (`.single()` then reports an error, which reads as "no ballot"). */
  function SingleBallot(rows: seq<Ballot>, sessionId: int, voterId: string, selectOk: bool): (r: Option<nat>)
    ensures r.Some? ==> r.value < |rows| && rows[r.value].sessionId == sessionId && rows[r.value].voterId == voterId
    ensures r.Some? <==> selectOk && MatchCount(rows, sessionId, voterId) == 1
    ensures OneBallotEach(rows) && selectOk ==> r == FindBallot(rows, sessionId, voterId)
  {
    MatchCountFinds(rows, sessionId, voterId);
    OneBallotEachMatchesOnce(rows, sessionId, voterId);
    if selectOk && MatchCount(rows, sessionId, voterId) == 1 then FindBallot(rows, sessionId, voterId) else None
  }

  /** The ballots after a successful submission of `b`: the single ballot found gets the new
      choices, and otherwise `b` is appended. */
  function Submitted(rows: seq<Ballot>, b: Ballot, selectOk: bool): (r: seq<Ballot>)
    ensures b in r
    ensures var found := SingleBallot(rows, b.sessionId, b.voterId, selectOk);
      && (found.Some? ==> |r| == |rows| && r[found.value] == b
                          && forall i :: 0 <= i < |rows| && i != found.value ==> r[i] == rows[i])
      && (found.None? ==> |r| == |rows| + 1 && r[..|rows|] == rows && r[|rows|] == b)
  {
    var found := SingleBallot(rows, b.sessionId, b.voterId, selectOk);
    if found.Some? then
      var r := rows[found.value := b];
      assert r[found.value] == b;
      r
    else
      var r := rows + [b];
      assert r[|rows|] == b;
      r
  }

  /** submitVote: looks the ballot up; a single existing one gets the new choices, otherwise a
      ballot is inserted. A lookup that fails, or that matches several ballots, reads as "no
      ballot", so the insert then runs. */
  method SubmitVote(votes: VotesTable, sessionId: int, voterId: string, choice1: string, choice2: string, choice3: string,
                    selectOk: bool, writeOk: bool)
    returns (r: Result<Ballot, string>)
    modifies votes
    ensures var b := Ballot(sessionId, voterId, choice1, choice2, choice3);
      && (r.Ok? <==> writeOk)
      && (r.Ok? ==> r.value == b && votes.rows == Submitted(old(votes.rows), b, selectOk))
      && (r.Err? ==> r == Err(VoteError) && votes.rows == old(votes.rows))
  {
    var existing := SingleBallot(votes.rows, sessionId, voterId, selectOk);
    if !writeOk {
      return Err(VoteError);
    }
    var ballot := Ballot(sessionId, voterId, choice1, choice2, choice3);
    if existing.Some? {
      votes.rows := votes.rows[existing.value := ballot];
    } else {
      votes.rows := votes.rows + [ballot];
    }
    r := Ok(ballot);
  }

  /** A submission whose lookup answered keeps one ballot per (session, voter), and the voter's
      ballot then holds the new choices: a repeat submission overwrites. */
  lemma SubmitKeepsOneBallot(rows: seq<Ballot>, b: Ballot)
    requires OneBallotEach(rows)
    ensures var after := Submitted(rows, b, true);
      && OneBallotEach(after)
      && FindBallot(after, b.sessionId, b.voterId).Some?
      && after[FindBallot(after, b.sessionId, b.voterId).value] == b
  {
    var found := FindBallot(rows, b.sessionId, b.voterId);
    var after := if found.Some? then rows[found.value := b] else rows + [b];
    assert after == Submitted(rows, b, true);
    forall i, j | 0 <= i < j < |after|
      ensures (after[i].sessionId, after[i].voterId) != (after[j].sessionId, after[j].voterId)
    {
      if found.None? && j == |rows| {
        assert after[i] == rows[i];
      }
    }
    var k := FindBallot(after, b.sessionId, b.voterId);
    if found.Some? {
      assert after[found.value] == b;
    } else {
      assert after[|rows|] == b;
    }
    assert k.Some?;
  }

  /** A lookup that fails while the voter already has a ballot leaves two ballots for the voter. */
  lemma FailedLookupDuplicates(rows: seq<Ballot>, b: Ballot)
    requires FindBallot(rows, b.sessionId, b.voterId).Some?
    ensures !OneBallotEach(Submitted(rows, b, false))
  {
    var i := FindBallot(rows, b.sessionId, b.voterId).value;
    var after := Submitted(rows, b, false);
    assert after[i] == rows[i] && after[|rows|] == b;
  }

  /** A voter who already has two ballots in the session gets a third: `.single()` fails on
      the two matches, so the insert runs even though the lookup itself answered. */
  lemma {:induction false} TwoBallotsGetAThird(rows: seq<Ballot>, b: Ballot)
    requires MatchCount(rows, b.sessionId, b.voterId) >= 2
    ensures Submitted(rows, b, true) == rows + [b]
    ensures MatchCount(Submitted(rows, b, true), b.sessionId, b.voterId) == MatchCount(rows, b.sessionId, b.voterId) + 1
  {
    MatchCountSnoc(rows, b);
  }

  lemma {:induction false} MatchCountSnoc(rows: seq<Ballot>, b: Ballot)
    ensures MatchCount(rows + [b], b.sessionId, b.voterId) == MatchCount(rows, b.sessionId, b.voterId) + 1
  {
    if rows != [] {
      assert (rows + [b])[1..] == rows[1..] + [b];
      MatchCountSnoc(rows[1..], b);
    } else {
      assert [b][1..] == [];
    }
  }

  /** One row of `get_vote_results`. */
  datatype ResultRow = ResultRow(category: int, studentId: string, studentName: string, voteCount: int)

  datatype ResultItem = ResultItem(studentId: string, name: string, votes: int)

  datatype VoteResults = VoteResults(category1: seq<ResultItem>, category2: seq<ResultItem>, category3: seq<ResultItem>)

  function ItemOf(row: ResultRow): ResultItem {
    ResultItem(row.studentId, row.studentName, row.voteCount)
  }

  /** The items of the rows of one category, in row order. */
  function ItemsOf(rows: seq<ResultRow>, category: int): seq<ResultItem> {
    if rows == [] then []
    else (if rows[0].category == category then [ItemOf(rows[0])] else []) + ItemsOf(rows[1..], category)
  }

  /** Grouping a concatenation groups each part and keeps their order. */
  lemma {:induction false} ItemsOfAppend(a: seq<ResultRow>, b: seq<ResultRow>, category: int)
    ensures ItemsOf(a + b, category) == ItemsOf(a, category) + ItemsOf(b, category)
  {
    if a == [] {
      assert a + b == b;
    } else {
      var h := if a[0].category == category then [ItemOf(a[0])] else [];
      assert (a + b)[0] == a[0];
      assert (a + b)[1..] == a[1..] + b;
      assert ItemsOf(a + b, category) == h + ItemsOf(a[1..] + b, category);
      assert ItemsOf(a, category) == h + ItemsOf(a[1..], category);
      ItemsOfAppend(a[1..], b, category);
      assert h + (ItemsOf(a[1..], category) + ItemsOf(b, category))
          == (h + ItemsOf(a[1..], category)) + ItemsOf(b, category);
    }
  }

  /** An item is listed under a category exactly when a row of that category carries it. */
  lemma {:induction false} ItemsOfMembers(rows: seq<ResultRow>, category: int)
    ensures forall it :: it in ItemsOf(rows, category) <==> exists r :: r in rows && r.category == category && it == ItemOf(r)
  {
    if rows != [] {
      ItemsOfMembers(rows[1..], category);
      assert forall r :: r in rows <==> r == rows[0] || r in rows[1..];
    }
  }

  /** A row of none of the three categories. */
  predicate OtherCategory(r: ResultRow) {
    r.category != 1 && r.category != 2 && r.category != 3
  }

  /** The three groups together hold one item per row of categories 1 to 3. */
  lemma {:induction false} ItemsOfCount(rows: seq<ResultRow>)
    ensures |ItemsOf(rows, 1)| + |ItemsOf(rows, 2)| + |ItemsOf(rows, 3)| + Sorting.Count(rows, OtherCategory) == |rows|
  {
    if rows != [] {
      ItemsOfCount(rows[1..]);
    }
  }

  /** getVoteResults: the procedure's rows split by category, each group in row order, rows of
      any other category dropped. */
  method GetVoteResults(rpc: Result<seq<ResultRow>, string>) returns (r: Result<VoteResults, string>)
    ensures rpc.Err? ==> r.Err?
    ensures rpc.Ok? ==> r == Ok(VoteResults(ItemsOf(rpc.value, 1), ItemsOf(rpc.value, 2), ItemsOf(rpc.value, 3)))
  {
    if rpc.Err? {
      return Err(rpc.error);
    }
    var data := rpc.value;
    var category1: seq<ResultItem> := [];
    var category2: seq<ResultItem> := [];
    var category3: seq<ResultItem> := [];
    var i := 0;
    while i < |data|
      invariant 0 <= i <= |data|
      invariant category1 == ItemsOf(data[..i], 1)
      invariant category2 == ItemsOf(data[..i], 2)
      invariant category3 == ItemsOf(data[..i], 3)
    {
      var row := data[i];
      var item := ResultItem(row.studentId, row.studentName, row.voteCount);
      if row.category == 1 {
        category1 := category1 + [item];
      } else if row.category == 2 {
        category2 := category2 + [item];
      } else if row.category == 3 {
        category3 := category3 + [item];
      }
      assert data[..i + 1] == data[..i] + [row];
      ItemsOfAppend(data[..i], [row], 1);
      ItemsOfAppend(data[..i], [row], 2);
      ItemsOfAppend(data[..i], [row], 3);
      i := i + 1;
    }
    assert data[..i] == data;
    r := Ok(VoteResults(category1, category2, category3));
  }

  /** getActiveVoteSession: the procedure's first row, or none. */
  function GetActiveVoteSession<T>(rpc: Result<seq<T>, string>): (r: Option<T>)
    ensures r.Some? <==> rpc.Ok? && rpc.value != []
    ensures r.Some? ==> r.value == rpc.value[0]
  {
    if rpc.Ok? && |rpc.value| > 0 then Some(rpc.value[0]) else None
  }

  /** hasStudentVoted: the procedure's answer, false when it fails. */
  function HasStudentVoted(rpc: Result<bool, string>): (voted: bool)
    ensures voted <==> rpc == Ok(true)
  {
    match rpc
    case Ok(v) => v
    case Err(_) => false
  }
}
