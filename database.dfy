/** The hosted tables several services share, held in memory. Each table is an object whose
    `rows` the services reassign; a table keyed by a column the code relies on for uniqueness
    (an `onConflict` target or a primary key) is a map on that key, a table whose order or
    duplicates matter is a sequence. */
module Database {
  import opened Wrappers
  import Sorting

  /** A row of `students`; `student_id` is the key `createOrUpdateStudent` upserts on. */
  datatype Student = Student(id: string, name: string, grade: int, classNumber: int, studentNumber: int)

  /** At most one row per student id. */
  predicate UniqueIds(rows: seq<Student>) {
    forall i, j :: 0 <= i < j < |rows| ==> rows[i].id != rows[j].id
  }

  /** The roster row of a student id: the first row with that id. */
  function FindStudent(students: seq<Student>, id: string): (r: Option<Student>)
    ensures r.None? <==> forall i :: 0 <= i < |students| ==> students[i].id != id
    ensures r.Some? ==> r.value in students && r.value.id == id
  {
    Sorting.Find(students, (s: Student) => s.id, id)
  }

  class StudentsTable {
    var rows: seq<Student>

    predicate Valid()
      reads this
    {
      UniqueIds(rows)
    }

    constructor (initial: seq<Student>)
      requires UniqueIds(initial)
      ensures rows == initial && Valid()
    {
      rows := initial;
    }
  }

  /** A row of `login_sessions`. Nothing in the schema the code relies on keeps it to one row
      per student, so the table is a sequence. */
  datatype Session = Session(studentId: string, loginTime: int, expiresAt: int)

  class SessionsTable {
    var rows: seq<Session>

    constructor ()
      ensures rows == []
    {
      rows := [];
    }
  }

  /** The two statuses a help request can have. */
  datatype HelpStatus = Requesting | Helping

  /** A row of `help_requests`, keyed by student (the `onConflict: 'student_id'` upsert). */
  datatype HelpRequest = HelpRequest(status: HelpStatus, isActive: bool, startedAt: int)

  class HelpRequestsTable {
    var rows: map<string, HelpRequest>

    constructor ()
      ensures rows == map[]
    {
      rows := map[];
    }
  }

  const MaxDailyPoints: int := 20

  /** A row of `daily_points`, keyed by (student, KST date). */
  datatype PointsRow = PointsRow(currentPoints: int, maxPoints: int)

  class DailyPointsTable {
    var rows: map<(string, string), PointsRow>

    /** Points stay within [0, 20] and every row's maximum is 20. */
    predicate Valid()
      reads this
    {
      forall k :: k in rows ==> 0 <= rows[k].currentPoints <= MaxDailyPoints && rows[k].maxPoints == MaxDailyPoints
    }

    constructor ()
      ensures rows == map[] && Valid()
    {
      rows := map[];
    }
  }

  /** A row of `point_transactions`: the helper, the helped student and the points, the help
      description the students wrote, the AI text and the teacher's approval, and the instant of
      the transaction. `completeHelp` writes the first three; the rest start empty. */
  datatype Transaction = Transaction(transactionId: int, helper: string, helped: string, points: int,
                                     helpDescription: Option<string>, aiText: Option<string>,
                                     isApproved: bool, approvedAt: Option<int>, transactionTime: int)

  predicate UniqueTransactionIds(rows: seq<Transaction>) {
    forall i, j :: 0 <= i < j < |rows| ==> rows[i].transactionId != rows[j].transactionId
  }

  class TransactionsTable {
    var rows: seq<Transaction>
    var nextId: int

    /** Ids are unique and below the next id the table hands out. */
    predicate Valid()
      reads this
    {
      UniqueTransactionIds(rows) && forall x :: x in rows ==> x.transactionId < nextId
    }

    constructor ()
      ensures rows == [] && Valid()
    {
      rows := [];
      nextId := 1;
    }

    /** Inserts a new transaction of `points` from the helper to the helped student at `now`,
        under the next id. */
    method Insert(helper: string, helped: string, points: int, now: int) returns (t: Transaction)
      requires Valid()
      modifies this
      ensures Valid()
      ensures t == Transaction(old(nextId), helper, helped, points, None, None, false, None, now)
      ensures rows == old(rows) + [t] && nextId == old(nextId) + 1
    {
      t := Transaction(nextId, helper, helped, points, None, None, false, None, now);
      rows := rows + [t];
      nextId := nextId + 1;
    }
  }
}
