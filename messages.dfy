/** Notes between the teacher and the students (src/services/messageService.js). The `messages`
    table is a sequence in insertion order; a new message gets a fresh id and the creation instant
    `now`. Every database call is a boolean outcome parameter. */
module Messages {
  import opened Wrappers
  import opened Text
  import opened Database
  import Sorting
  import Students

  const SendError := "쪽지를 보낼 수 없습니다."
  const LoadError := "쪽지를 불러올 수 없습니다."
  const ReplyLimit := 20
  const ReplyLength := 100
  const AdminId := "admin"

  datatype Party = Teacher | StudentParty

  /** A row of `messages`; `fromId` is null for the teacher. */
  datatype Message = Message(messageId: int, fromType: Party, fromId: Option<string>,
                             toType: Party, toId: string, content: string, isRead: bool, createdAt: int)

  predicate UniqueMessageIds(rows: seq<Message>) {
    forall i, j :: 0 <= i < j < |rows| ==> rows[i].messageId != rows[j].messageId
  }

  class MessagesTable {
    var rows: seq<Message>
    var nextId: int

    /** Ids are unique and below the next id the table hands out. */
    predicate Valid()
      reads this
    {
      UniqueMessageIds(rows) && forall m :: m in rows ==> m.messageId < nextId
    }

    constructor ()
      ensures rows == [] && Valid()
    {
      rows := [];
      nextId := 1;
    }

    /** Appends a message under the next id. */
    method Insert(fromType: Party, fromId: Option<string>, toType: Party, toId: string, content: string, now: int)
      returns (m: Message)
      requires Valid()
      modifies this
      ensures Valid()
      ensures m == Message(old(nextId), fromType, fromId, toType, toId, content, false, now)
      ensures rows == old(rows) + [m] && nextId == old(nextId) + 1
    {
      m := Message(nextId, fromType, fromId, toType, toId, content, false, now);
      rows := rows + [m];
      nextId := nextId + 1;
    }
  }

  /** sendMessageToStudent: the trimmed content from the teacher to the student, unread. */
  method SendMessageToStudent(t: MessagesTable, toStudentId: string, content: string, now: int, insertOk: bool)
    returns (r: Result<Message, string>)
    requires t.Valid()
    modifies t
    ensures t.Valid()
    ensures r.Ok? <==> insertOk
    ensures r.Ok? ==> && r.value.fromType == Teacher && r.value.fromId == None
                      && r.value.toType == StudentParty && r.value.toId == toStudentId
                      && r.value.content == Trim(content) && !r.value.isRead
                      && (forall m :: m in old(t.rows) ==> m.messageId != r.value.messageId)
                      && t.rows == old(t.rows) + [r.value]
    ensures r.Err? ==> t.rows == old(t.rows)
  {
    if !insertOk {
      return Err(SendError);
    }
    var m := t.Insert(Teacher, None, StudentParty, toStudentId, Trim(content), now);
    r := Ok(m);
  }

  /** sendReplyToTeacher: the trimmed content cut to 100 characters, from the student to the
      administrator, unread. */
  method SendReplyToTeacher(t: MessagesTable, fromStudentId: string, content: string, now: int, insertOk: bool)
    returns (r: Result<Message, string>)
    requires t.Valid()
    modifies t
    ensures t.Valid()
    ensures r.Ok? <==> insertOk
    ensures r.Ok? ==> && r.value.fromType == StudentParty && r.value.fromId == Some(fromStudentId)
                      && r.value.toType == Teacher && r.value.toId == AdminId
                      && r.value.content <= Trim(content)
                      && |r.value.content| == (if |Trim(content)| < ReplyLength then |Trim(content)| else ReplyLength)
                      && !r.value.isRead
                      && t.rows == old(t.rows) + [r.value]
    ensures r.Err? ==> t.rows == old(t.rows)
  {
    if !insertOk {
      return Err(SendError);
    }
    var m := t.Insert(StudentParty, Some(fromStudentId), Teacher, AdminId, Take(Trim(content), ReplyLength), now);
    r := Ok(m);
  }

  /** `.order('created_at', { ascending: false })`. */
  predicate NewestFirst(a: Message, b: Message) {
    a.createdAt >= b.createdAt
  }

  lemma NewestFirstIsOrder()
    ensures Sorting.Total(NewestFirst) && Sorting.Transitive(NewestFirst)
  {
  }

  /** The message is an unread note to that student. */
  predicate UnreadFor(m: Message, studentId: string) {
    m.toType == StudentParty && m.toId == studentId && !m.isRead
  }

  /** The unread notes of the student, newest first. */
  function UnreadNewestFirst(rows: seq<Message>, studentId: string): (r: seq<Message>)
    ensures forall m :: m in r <==> m in rows && UnreadFor(m, studentId)
    ensures Sorting.SortedBy(r, NewestFirst)
  {
    var p := (m: Message) => UnreadFor(m, studentId);
    Sorting.FilterMembers(rows, p);
    NewestFirstIsOrder();
    Sorting.SortSorted(Sorting.Filter(rows, p), NewestFirst);
    var r := Sorting.Sort(Sorting.Filter(rows, p), NewestFirst);
    assert forall m :: m in r <==> m in multiset(r);
    r
  }

  /** getLatestUnreadMessage: `.limit(1).maybeSingle()` on the unread notes, newest first. */
  function GetLatestUnreadMessage(rows: seq<Message>, studentId: string, queryOk: bool): (r: Result<Option<Message>, string>)
    ensures r.Ok? <==> queryOk
    ensures r.Ok? && r.value.None? <==> queryOk && forall m :: m in rows ==> !UnreadFor(m, studentId)
    ensures r.Ok? && r.value.Some? ==> && r.value.value in rows && UnreadFor(r.value.value, studentId)
                                       && forall m :: m in rows && UnreadFor(m, studentId) ==> m.createdAt <= r.value.value.createdAt
  {
    if !queryOk then Err(LoadError)
    else
      var unread := UnreadNewestFirst(rows, studentId);
      if unread == [] then Ok(None)
      else
        assert forall m :: m in unread ==> NewestFirst(unread[0], m) by {
          forall m | m in unread ensures NewestFirst(unread[0], m) {
            var i :| 0 <= i < |unread| && unread[i] == m;
          }
        }
        Ok(Some(unread[0]))
  }

  /** `.update({ is_read: true }).eq('message_id', id)`. */
  function MarkRead(rows: seq<Message>, messageId: int): (r: seq<Message>)
    ensures |r| == |rows|
    ensures forall i :: 0 <= i < |rows| ==> r[i] == if rows[i].messageId == messageId then rows[i].(isRead := true) else rows[i]
  {
    Sorting.MapSeq(rows, (m: Message) => if m.messageId == messageId then m.(isRead := true) else m)
  }

  /** Marking twice is marking once, and the marked message is read afterwards. */
  lemma MarkReadIdempotent(rows: seq<Message>, messageId: int)
    ensures MarkRead(MarkRead(rows, messageId), messageId) == MarkRead(rows, messageId)
    ensures forall m :: m in MarkRead(rows, messageId) && m.messageId == messageId ==> m.isRead
  {
    var once := MarkRead(rows, messageId);
    forall m | m in once && m.messageId == messageId ensures m.isRead {
      var i :| 0 <= i < |once| && once[i] == m;
    }
  }

  /** markAsRead: sets `is_read` on that message only. */
  method MarkAsRead(t: MessagesTable, messageId: int, updateOk: bool) returns (r: Result<(), string>)
    requires t.Valid()
    modifies t
    ensures t.Valid() && t.nextId == old(t.nextId)
    ensures r.Ok? <==> updateOk
    ensures t.rows == if updateOk then MarkRead(old(t.rows), messageId) else old(t.rows)
  {
    if !updateOk {
      return Err(LoadError);
    }
    var marked := MarkRead(t.rows, messageId);
    forall m | m in marked ensures m.messageId < t.nextId {
      var i :| 0 <= i < |marked| && marked[i] == m;
      assert t.rows[i] in t.rows;
    }
    t.rows := marked;
    r := Ok(());
  }

  /** Without its first row, a keyed table stays keyed, and no later row has the first's id. */
  lemma UniqueMessageIdsTail(rows: seq<Message>)
    requires rows != [] && UniqueMessageIds(rows)
    ensures UniqueMessageIds(rows[1..])
    ensures forall m :: m in rows[1..] ==> m.messageId != rows[0].messageId
  {
    forall m | m in rows[1..] ensures m.messageId != rows[0].messageId {
      var i :| 0 <= i < |rows[1..]| && rows[1..][i] == m;
      assert rows[i + 1] == m;
    }
  }

  /** A row whose id no other row has, put in front of a keyed table, keeps it keyed. */
  lemma UniqueMessageIdsCons(x: Message, rest: seq<Message>)
    requires UniqueMessageIds(rest)
    requires forall m :: m in rest ==> m.messageId != x.messageId
    ensures UniqueMessageIds([x] + rest)
  {
    var r := [x] + rest;
    forall i, j | 0 <= i < j < |r| ensures r[i].messageId != r[j].messageId {
      if i == 0 {
        assert r[j] in rest;
      } else {
        assert r[i] == rest[i - 1] && r[j] == rest[j - 1];
      }
    }
  }

  /** `.delete().eq('message_id', id)`: the other messages, in order. */
  function WithoutMessage(rows: seq<Message>, messageId: int): (r: seq<Message>)
    ensures forall m :: m in r <==> m in rows && m.messageId != messageId
    ensures UniqueMessageIds(rows) ==> UniqueMessageIds(r)
  {
    if rows == [] then []
    else
      var rest := WithoutMessage(rows[1..], messageId);
      assert forall m :: m in rows <==> m == rows[0] || m in rows[1..];
      if rows[0].messageId == messageId then rest
      else
        var r := [rows[0]] + rest;
        assert UniqueMessageIds(rows) ==> UniqueMessageIds(r) by {
          if UniqueMessageIds(rows) {
            UniqueMessageIdsTail(rows);
            assert UniqueMessageIds(rest);
            assert forall m :: m in rest ==> m in rows[1..];
            UniqueMessageIdsCons(rows[0], rest);
          }
        }
        r
  }

  /** deleteMessage: removes that message; an id that matches nothing still succeeds. */
  method DeleteMessage(t: MessagesTable, messageId: int, deleteOk: bool) returns (r: Result<(), string>)
    requires t.Valid()
    modifies t
    ensures t.Valid() && t.nextId == old(t.nextId)
    ensures r.Ok? <==> deleteOk
    ensures r.Ok? ==> forall m :: m in t.rows <==> m in old(t.rows) && m.messageId != messageId
    ensures r.Err? ==> t.rows == old(t.rows)
  {
    if !deleteOk {
      return Err(LoadError);
    }
    t.rows := WithoutMessage(t.rows, messageId);
    r := Ok(());
  }

  /** A reply paired with its sender's student row, or null. */
  datatype Reply = Reply(message: Message, student: Option<Student>)

  predicate ToAdmin(m: Message) {
    m.toType == Teacher && m.toId == AdminId
  }

  /** The first `n` messages to the administrator, newest first: as many as asked for, all of
      them to the administrator and in order. */
  lemma NewestReplies(rows: seq<Message>, n: nat)
    requires n <= Sorting.Count(rows, ToAdmin)
    ensures var sorted := Sorting.Sort(Sorting.Filter(rows, ToAdmin), NewestFirst);
      && |sorted| == Sorting.Count(rows, ToAdmin)
      && (forall m :: m in sorted[..n] ==> m in rows && ToAdmin(m))
      && Sorting.SortedBy(sorted[..n], NewestFirst)
  {
    var f := Sorting.Filter(rows, ToAdmin);
    Sorting.FilterMembers(rows, ToAdmin);
    Sorting.CountIsFilterLength(rows, ToAdmin);
    NewestFirstIsOrder();
    Sorting.SortSorted(f, NewestFirst);
    var sorted := Sorting.Sort(f, NewestFirst);
    assert |sorted| == |f| by {
      assert |multiset(sorted)| == |multiset(f)|;
    }
    forall m | m in sorted[..n] ensures m in rows && ToAdmin(m) {
      assert m in sorted;
      assert m in multiset(sorted);
    }
    var p := sorted[..n];
    forall i, j | 0 <= i < j < |p| ensures NewestFirst(p[i], p[j]) {
      assert p[i] == sorted[i] && p[j] == sorted[j];
    }
  }

  /** The first `n` of the sorted replies are drawn from the table, and every reply to the
      administrator they leave out is no newer than any of them. */
  lemma NewestRepliesKept(rows: seq<Message>, sorted: seq<Message>, n: nat)
    requires multiset(sorted) == multiset(Sorting.Filter(rows, ToAdmin)) && Sorting.SortedBy(sorted, NewestFirst)
    requires n <= |sorted|
    ensures multiset(sorted[..n]) <= multiset(rows)
    ensures forall x, m :: x in sorted[..n] && m in multiset(rows) - multiset(sorted[..n]) && ToAdmin(m) ==> NewestFirst(x, m)
  {
    var p := sorted[..n];
    assert sorted == p + sorted[n..];
    assert multiset(sorted) == multiset(p) + multiset(sorted[n..]);
    forall x ensures multiset(p)[x] <= multiset(rows)[x] {
      assert multiset(p)[x] <= multiset(sorted)[x];
    }
    Sorting.SortedPrefixFirst(sorted, n, NewestFirst);
    forall x, m | x in p && m in multiset(rows) - multiset(p) && ToAdmin(m) ensures NewestFirst(x, m) {
      assert multiset(sorted)[m] == multiset(rows)[m];
    }
  }

  /** The replies query: to the administrator, newest first, at most 20. */
  function LatestReplies(rows: seq<Message>): (r: seq<Message>)
    ensures |r| <= ReplyLimit
    ensures |r| == if Sorting.Count(rows, ToAdmin) < ReplyLimit then Sorting.Count(rows, ToAdmin) else ReplyLimit
    ensures forall m :: m in r ==> m in rows && ToAdmin(m)
    ensures Sorting.SortedBy(r, NewestFirst)
    ensures multiset(r) <= multiset(rows)
    ensures forall x, m :: x in r && m in multiset(rows) - multiset(r) && ToAdmin(m) ==> NewestFirst(x, m)
  {
    var count := Sorting.Count(rows, ToAdmin);
    var n := if count < ReplyLimit then count else ReplyLimit;
    NewestReplies(rows, n);
    var sorted := Sorting.Sort(Sorting.Filter(rows, ToAdmin), NewestFirst);
    NewestFirstIsOrder();
    Sorting.SortSorted(Sorting.Filter(rows, ToAdmin), NewestFirst);
    NewestRepliesKept(rows, sorted, n);
    sorted[..n]
  }

  /** `studentMap[s.student_id] = s` for each student in turn: a later row of the same id wins. */
  function StudentMap(students: seq<Student>): (m: map<string, Student>)
    ensures forall id :: id in m <==> exists s :: s in students && s.id == id
    ensures forall id :: id in m ==> m[id] in students && m[id].id == id
  {
    if students == [] then map[]
    else
      var front := students[..|students| - 1];
      var last := students[|students| - 1];
      assert forall s :: s in students <==> s in front || s == last;
      StudentMap(front)[last.id := last]
  }

  /** The forEach that fills the student map. */
  method BuildStudentMap(students: seq<Student>) returns (studentMap: map<string, Student>)
    ensures studentMap == StudentMap(students)
  {
    studentMap := map[];
    var i := 0;
    while i < |students|
      invariant 0 <= i <= |students|
      invariant studentMap == StudentMap(students[..i])
    {
      assert students[..i + 1][..i] == students[..i];
      studentMap := studentMap[students[i].id := students[i]];
      i := i + 1;
    }
    assert students[..i] == students;
  }

  /** With one row per id the map gives each student's own row. */
  lemma StudentMapOfUnique(students: seq<Student>, s: Student)
    requires UniqueIds(students) && s in students
    ensures s.id in StudentMap(students) && StudentMap(students)[s.id] == s
  {
    var x := StudentMap(students)[s.id];
    var i :| 0 <= i < |students| && students[i] == x;
    var j :| 0 <= j < |students| && students[j] == s;
    assert !(i < j) && !(j < i);
  }

  /** `studentMap[msg.from_id] || null`. */
  function SenderOf(studentMap: map<string, Student>, m: Message): Option<Student> {
    if m.fromId.Some? && m.fromId.value in studentMap then Some(studentMap[m.fromId.value]) else None
  }

  /** The student ids the replies come from. */
  function SenderIds(replies: seq<Message>): set<string> {
    set m | m in replies && m.fromId.Some? :: m.fromId.value
  }

  /** `.in('student_id', studentIds)`: the student rows with one of those ids, in table order; a
      table with one row per id gives a list with one row per id. */
  function Senders(students: seq<Student>, ids: set<string>): (r: seq<Student>)
    ensures forall s :: s in r <==> s in students && s.id in ids
    ensures UniqueIds(students) ==> UniqueIds(r)
  {
    if students == [] then []
    else
      var rest := Senders(students[1..], ids);
      assert forall s :: s in students <==> s == students[0] || s in students[1..];
      if students[0].id !in ids then rest
      else
        assert UniqueIds(students) ==> UniqueIds([students[0]] + rest) by {
          if UniqueIds(students) {
            Students.UniqueTail(students);
            Students.UniqueCons(students[0], rest);
          }
        }
        [students[0]] + rest
  }

  /** getTeacherReplies: the 20 newest replies to the administrator, each paired with its
      sender's student row or null; no reply gives no list and no student query. */
  method GetTeacherReplies(rows: seq<Message>, students: seq<Student>, messagesOk: bool, studentsOk: bool)
    returns (r: Result<seq<Reply>, string>)
    ensures r.Ok? <==> messagesOk && (LatestReplies(rows) == [] || studentsOk)
    ensures r.Ok? ==> var msgs := LatestReplies(rows);
      && |r.value| == |msgs|
      && forall i :: 0 <= i < |r.value| ==> r.value[i] == Reply(msgs[i], SenderOf(StudentMap(Senders(students, SenderIds(msgs))), msgs[i]))
  {
    if !messagesOk {
      return Err(LoadError);
    }
    var messages := LatestReplies(rows);
    if messages == [] {
      return Ok([]);
    }
    if !studentsOk {
      return Err(LoadError);
    }
    var studentMap := BuildStudentMap(Senders(students, SenderIds(messages)));
    r := Ok(Sorting.MapSeq(messages, (m: Message) => Reply(m, SenderOf(studentMap, m))));
  }

  /** Every listed reply is a reply to the administrator, the list is at most 20 long and newest
      first, and with one row per student id the reply of a student in the table carries that
      student's row while any other carries null. */
  lemma TeacherRepliesSpec(rows: seq<Message>, students: seq<Student>)
    requires UniqueIds(students)
    ensures var msgs := LatestReplies(rows);
      var map_ := StudentMap(Senders(students, SenderIds(msgs)));
      && |msgs| <= ReplyLimit
      && (forall i, j :: 0 <= i < j < |msgs| ==> msgs[i].createdAt >= msgs[j].createdAt)
      && (forall m :: m in msgs ==> m in rows && ToAdmin(m))
      && multiset(msgs) <= multiset(rows)
      && (forall x, m :: x in msgs && m in multiset(rows) - multiset(msgs) && ToAdmin(m) ==> NewestFirst(x, m))
      && (forall m, s :: m in msgs && s in students && m.fromId == Some(s.id) ==> SenderOf(map_, m) == Some(s))
      && (forall m :: m in msgs && (forall s :: s in students ==> m.fromId != Some(s.id)) ==> SenderOf(map_, m) == None)
  {
    var msgs := LatestReplies(rows);
    SendersOfReplies(msgs, students);
  }

  /** With one row per student id, the sender map gives a reply of a student in the table that
      student's row, and any other reply null. */
  lemma SendersOfReplies(msgs: seq<Message>, students: seq<Student>)
    requires UniqueIds(students)
    ensures var map_ := StudentMap(Senders(students, SenderIds(msgs)));
      && (forall m, s :: m in msgs && s in students && m.fromId == Some(s.id) ==> SenderOf(map_, m) == Some(s))
      && (forall m :: m in msgs && (forall s :: s in students ==> m.fromId != Some(s.id)) ==> SenderOf(map_, m) == None)
  {
    var senders := Senders(students, SenderIds(msgs));
    forall m, s | m in msgs && s in students && m.fromId == Some(s.id)
      ensures SenderOf(StudentMap(senders), m) == Some(s)
    {
      assert s in senders;
      StudentMapOfUnique(senders, s);
    }
  }

  /** The filter of subscribeToMyMessages: a new row is passed on only when it is a note to
      this student. */
  predicate ForMe(m: Message, studentId: string) {
    m.toType == StudentParty && m.toId == studentId
  }

  /** A note the teacher sends reaches the subscription of its addressee and no other; a reply to
      the teacher reaches no student's subscription. */
  lemma RoutingSpec(id: int, to: string, content: string, now: int, me: string)
    ensures ForMe(Message(id, Teacher, None, StudentParty, to, Trim(content), false, now), me) <==> to == me
    ensures !ForMe(Message(id, StudentParty, Some(me), Teacher, AdminId, Take(Trim(content), ReplyLength), false, now), me)
  {
  }
}
