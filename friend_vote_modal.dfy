/** A student's vote (src/modules/student/FriendVoteModal.jsx): one classmate chosen for each
    of the three questions, never oneself and never the same classmate twice, then submitted as
    one ballot. Every database answer is an input. */
module FriendVoteModal {
  import opened Wrappers
  import opened Text
  import opened Database
  import Sorting
  import Format
  import Students
  import Votes

  const LoadFailed := "학생 목록을 불러올 수 없습니다."
  const NotAllChosen := "모든 항목을 선택해주세요."
  const ChosenTwice := "같은 친구를 중복 선택할 수 없습니다."
  const VoteDone := "투표가 완료되었습니다!"
  const SubmitFailed := "투표 제출 중 오류가 발생했습니다."

  /** The student is chosen in a category other than `k` (0, 1 or 2 for category1..3). */
  predicate TakenElsewhere(choices: seq<Option<string>>, k: int, id: string) {
    exists j :: 0 <= j < |choices| && j != k && choices[j] == Some(id)
  }

  /** getAvailableStudents: the classmates offered for category `k`, in the class order: never
      the voter, and nobody chosen in another category. */
  function Available(students: seq<Student>, me: Option<string>, choices: seq<Option<string>>, k: int): (r: seq<Student>)
    ensures forall s :: s in r <==> s in students && me != Some(s.id) && !TakenElsewhere(choices, k, s.id)
    ensures |r| <= |students|
  {
    Sorting.FilterMembers(students, (s: Student) => me != Some(s.id) && !TakenElsewhere(choices, k, s.id));
    Sorting.Filter(students, (s: Student) => me != Some(s.id) && !TakenElsewhere(choices, k, s.id))
  }

  /** What is offered for a category does not depend on that category's own choice: the current
      choice stays on offer. */
  lemma OwnChoiceKept(students: seq<Student>, me: Option<string>, choices: seq<Option<string>>, k: nat, c: Option<string>)
    requires k < |choices|
    ensures Available(students, me, choices[k := c], k) == Available(students, me, choices, k)
  {
    var other := choices[k := c];
    forall id ensures TakenElsewhere(other, k, id) <==> TakenElsewhere(choices, k, id) {
      if TakenElsewhere(other, k, id) {
        var j :| 0 <= j < |other| && j != k && other[j] == Some(id);
        assert choices[j] == Some(id);
      }
      if TakenElsewhere(choices, k, id) {
        var j :| 0 <= j < |choices| && j != k && choices[j] == Some(id);
        assert other[j] == Some(id);
      }
    }
    Sorting.FilterSame(students, (s: Student) => me != Some(s.id) && !TakenElsewhere(other, k, s.id),
                       (s: Student) => me != Some(s.id) && !TakenElsewhere(choices, k, s.id));
  }

  /** The offer keeps the class order: filtering a list in some order leaves it in that order. */
  lemma AvailableKeepsOrder(students: seq<Student>, me: Option<string>, choices: seq<Option<string>>, k: int,
                            le: (Student, Student) -> bool)
    requires Sorting.SortedBy(students, le)
    ensures Sorting.SortedBy(Available(students, me, choices, k), le)
  {
    Sorting.FilterSorted(students, (s: Student) => me != Some(s.id) && !TakenElsewhere(choices, k, s.id), le);
  }

  /** handleSubmit's checks: all three chosen (an empty choice counts as none), then three
      different classmates. */
  function Checked(choices: seq<Option<string>>): (r: Result<(string, string, string), string>)
    requires |choices| == 3
    ensures r.Ok? <==> (forall k :: 0 <= k < 3 ==> Truthy(choices[k]))
                       && choices[0] != choices[1] && choices[1] != choices[2] && choices[0] != choices[2]
    ensures r.Ok? ==> r.value == (choices[0].value, choices[1].value, choices[2].value)
    ensures !(forall k :: 0 <= k < 3 ==> Truthy(choices[k])) ==> r == Err(NotAllChosen)
    ensures (forall k :: 0 <= k < 3 ==> Truthy(choices[k])) && r.Err? ==> r == Err(ChosenTwice)
  {
    if !Truthy(choices[0]) || !Truthy(choices[1]) || !Truthy(choices[2]) then Err(NotAllChosen)
    else
      var ids := {choices[0].value, choices[1].value, choices[2].value};
      ThreeDistinct(choices[0].value, choices[1].value, choices[2].value);
      if |ids| != 3 then
        Err(ChosenTwice)
      else
        Ok((choices[0].value, choices[1].value, choices[2].value))
  }

  /** Three values make a set of three exactly when they are pairwise different. */
  lemma ThreeDistinct(a: string, b: string, c: string)
    ensures |{a, b, c}| == 3 <==> a != b && b != c && a != c
  {
    if a == b {
      assert {a, b, c} == {a, c};
    } else if b == c {
      assert {a, b, c} == {a, b};
    } else if a == c {
      assert {a, b, c} == {a, b};
    }
  }

  /** The voter's class list: the class read from the id (`${grade}-${classNumber}`), then
      getClassStudents; an id that cannot be read is an error. */
  function ClassList(rows: seq<Student>, me: Option<string>, queryOk: bool): (r: Result<seq<Student>, string>)
    ensures Format.ClassOfStudentId(me).None? ==> r.Err?
    ensures Format.ClassOfStudentId(me).Some? ==> r == Students.GetClassStudents(rows, Format.ClassOfStudentId(me).value, queryOk)
  {
    var classInfo := Format.ClassOfStudentId(me);
    if classInfo.None? then Err(LoadFailed) else Students.GetClassStudents(rows, classInfo.value, queryOk)
  }

  /** For a four-digit id the list is the query for the class its first two digits name. */
  lemma ClassListOfDigitId(rows: seq<Student>, id: string, queryOk: bool)
    requires |id| == 4 && AllDigits(id)
    ensures ClassList(rows, Some(id), queryOk)
         == Students.GetStudentsByClass(rows, DigitVal(id[0]), DigitVal(id[1]), queryOk)
  {
    Format.ClassOfDigitId(id);
    var g := NatToString(DigitVal(id[0]));
    var c := NatToString(DigitVal(id[1]));
    NatToStringRoundTrip(DigitVal(id[0]));
    NatToStringRoundTrip(DigitVal(id[1]));
    Students.GetClassStudentsAgrees(rows, g, c, queryOk);
  }

  /** The modal's state. */
  class VoteModal {
    var me: Option<string>
    var students: seq<Student>
    var choices: seq<Option<string>>

    predicate Valid()
      reads this
    {
      |choices| == 3
    }

    /** The modal opens with nothing chosen and the voter's id kept by the browser. */
    constructor (me: Option<string>)
      ensures Valid() && this.me == me && students == [] && choices == [None, None, None]
    {
      this.me := me;
      students := [];
      choices := [None, None, None];
    }

    /** fetchStudents, given the answer of ClassList: the class list on success; an alert and
        the list unchanged otherwise. */
    method FetchStudents(list: Result<seq<Student>, string>) returns (alert: Option<string>)
      requires Valid()
      modifies this
      ensures Valid() && me == old(me) && choices == old(choices)
      ensures list.Ok? ==> alert.None? && students == list.value
      ensures list.Err? ==> alert == Some(LoadFailed) && students == old(students)
    {
      if list.Err? {
        return Some(LoadFailed);
      }
      students := list.value;
      alert := None;
    }

    /** handleSelectStudent: only category `k` takes the choice (the empty first option gives
        an empty choice). */
    method Select(k: nat, id: string)
      requires Valid() && k < 3
      modifies this
      ensures Valid() && choices == old(choices)[k := Some(id)]
      ensures forall j :: 0 <= j < 3 && j != k ==> choices[j] == old(choices)[j]
      ensures me == old(me) && students == old(students)
    {
      choices := choices[k := Some(id)];
    }

    /** handleSubmit: refused with an alert unless the checks pass; otherwise the ballot is
        written and the vote is complete, or the error's text is shown. */
    method Submit(votes: Votes.VotesTable, sessionId: int, selectOk: bool, writeOk: bool)
      returns (alert: string, complete: bool)
      requires Valid()
      modifies votes
      ensures var c := Checked(choices);
        && (c.Err? ==> alert == c.error && !complete && votes.rows == old(votes.rows))
        && (c.Ok? && !writeOk ==> alert == Votes.VoteError && !complete && votes.rows == old(votes.rows))
        && (c.Ok? && writeOk ==> alert == VoteDone && complete
                                 && var b := Votes.Ballot(sessionId, if me.Some? then me.value else "", c.value.0, c.value.1, c.value.2);
                                    && b in votes.rows
                                    && votes.rows == Votes.Submitted(old(votes.rows), b, selectOk))
    {
      var c := Checked(choices);
      if c.Err? {
        return c.error, false;
      }
      var voter := if me.Some? then me.value else "";
      var r := Votes.SubmitVote(votes, sessionId, voter, c.value.0, c.value.1, c.value.2, selectOk, writeOk);
      if r.Err? {
        alert := if r.error != "" then r.error else SubmitFailed;
        return alert, false;
      }
      return VoteDone, true;
    }
  }

  /** Choices made from what is offered never include the voter and never repeat a classmate. */
  lemma ChoicesFromOffers(students: seq<Student>, me: Option<string>, choices: seq<Option<string>>, k: nat, s: Student)
    requires |choices| == 3 && k < 3
    requires s in Available(students, me, choices, k)
    ensures var after := choices[k := Some(s.id)];
      me != after[k] && forall j :: 0 <= j < 3 && j != k ==> after[j] != after[k]
  {
  }
}
