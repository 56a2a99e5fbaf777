/** The teacher's tab of help records (src/modules/admin/AdminHelpRecordsTab.jsx): the scope
    input, the records of the helpers in scope, the action buttons each record shows, and the
    conversion, approval, rejection and withdrawal of approval on `point_transactions`. A
    `window.confirm` is a boolean input and the AI conversion's answer is an input. */
module AdminHelpRecords {
  import opened Wrappers
  import opened Text
  import opened Database
  import Sorting

  /** A transaction with its helper and helped student joined from `students`. */
  datatype HelpRecord = HelpRecord(tx: Transaction, helper: Option<Student>, helped: Option<Student>)

  /** The joined rows of the records query, in table order. */
  function Join(rows: seq<Transaction>, students: seq<Student>): (r: seq<HelpRecord>)
    ensures |r| == |rows|
    ensures forall i :: 0 <= i < |rows| ==>
      r[i].tx == rows[i] && r[i].helper == FindStudent(students, rows[i].helper) && r[i].helped == FindStudent(students, rows[i].helped)
  {
    Sorting.MapSeq(rows, (x: Transaction) => HelpRecord(x, FindStudent(students, x.helper), FindStudent(students, x.helped)))
  }

  datatype ClassInput = ClassOf(grade: nat, classNum: nat) | GradeOf(grade: nat) | Everything

  /** `/^\d-\d+$/`. */
  predicate ClassShape(t: string) {
    |t| >= 3 && IsDigit(t[0]) && t[1] == '-' && AllDigits(t[2..])
  }

  /** `/^\d학년$/`. */
  predicate GradeShape(t: string) {
    |t| == 3 && IsDigit(t[0]) && t[1..] == "학년"
  }

  /** parseClassInput: on the trimmed input, "D-N…" gives a class, "D학년" a grade and "전체"
      everything; anything else is rejected. */
  function ParseClassInput(input: string): (r: Option<ClassInput>)
    ensures r.Some? <==> ClassShape(Trim(input)) || GradeShape(Trim(input)) || Trim(input) == "전체"
    ensures r.Some? && r.value.ClassOf? ==> ClassShape(Trim(input))
    ensures r.Some? && r.value.GradeOf? ==> GradeShape(Trim(input))
  {
    var t := Trim(input);
    if ClassShape(t) then Some(ClassOf(DigitVal(t[0]), DigitsValue(t[2..])))
    else if GradeShape(t) then Some(GradeOf(DigitVal(t[0])))
    else if t == "전체" then Some(Everything)
    else None
  }

  /** A class written out and padded with white space reads back as itself. */
  lemma ClassFormParses(pad: string, d: char, n: string, pad2: string)
    requires IsBlank(pad) && IsBlank(pad2) && IsDigit(d) && n != [] && AllDigits(n)
    ensures ParseClassInput(pad + ([d] + "-" + n) + pad2) == Some(ClassOf(DigitVal(d), DigitsValue(n)))
  {
    var c := [d] + "-" + n;
    assert c[0] == d && c[1] == '-' && c[2..] == n;
    assert ClassShape(c);
    TrimPadded(pad, c, pad2);
  }

  /** A grade written out and padded with white space reads back as itself. */
  lemma GradeFormParses(pad: string, d: char, pad2: string)
    requires IsBlank(pad) && IsBlank(pad2) && IsDigit(d)
    ensures ParseClassInput(pad + ([d] + "학년") + pad2) == Some(GradeOf(DigitVal(d)))
  {
    var g := [d] + "학년";
    TrimPadded(pad, g, pad2);
    assert g[0] == d && g[1] == '학' && g[1..] == "학년";
    assert !ClassShape(g) && GradeShape(g);
  }

  /** A grade of two digits is not a class. */
  lemma TwoDigitGradeRejected(pad: string, d: char, e: char, pad2: string)
    requires IsBlank(pad) && IsBlank(pad2) && IsDigit(d) && IsDigit(e)
    ensures ParseClassInput(pad + ([d, e] + "-1") + pad2) == None
  {
    var c := [d, e] + "-1";
    assert c[0] == d && c[3] == '1';
    TrimPadded(pad, c, pad2);
    assert c[1] == e && |c| == 4;
    assert c != "전체";
  }

  /** A space between the grade and "학년" makes the input unreadable. */
  lemma SpacedGradeRejected(pad: string, d: char, pad2: string)
    requires IsBlank(pad) && IsBlank(pad2) && IsDigit(d)
    ensures ParseClassInput(pad + ([d, ' '] + "학년") + pad2) == None
  {
    var g := [d, ' '] + "학년";
    assert g[0] == d && g[3] == '년';
    TrimPadded(pad, g, pad2);
    assert g[1] == ' ' && |g| == 4;
    assert g != "전체";
  }

  /** The record's helper is in the scope. */
  predicate InScope(r: HelpRecord, scope: ClassInput) {
    match scope
    case ClassOf(g, c) => r.helper.Some? && r.helper.value.grade == g && r.helper.value.classNumber == c
    case GradeOf(g) => r.helper.Some? && r.helper.value.grade == g
    case Everything => true
  }

  /** `.order('transaction_time', { ascending: false })`. */
  predicate NewestFirst(a: HelpRecord, b: HelpRecord) {
    a.tx.transactionTime >= b.tx.transactionTime
  }

  predicate Described(r: HelpRecord) {
    r.tx.helpDescription.Some?
  }

  /** The records query: the records with a description, newest first. */
  function DescribedNewestFirst(joined: seq<HelpRecord>): (r: seq<HelpRecord>)
    ensures forall x :: x in r <==> x in joined && Described(x)
    ensures Sorting.SortedBy(r, NewestFirst)
  {
    var f := Sorting.Filter(joined, Described);
    Sorting.FilterMembers(joined, Described);
    assert Sorting.Total(NewestFirst) && Sorting.Transitive(NewestFirst);
    Sorting.SortSorted(f, NewestFirst);
    var r := Sorting.Sort(f, NewestFirst);
    assert forall x :: x in r <==> x in multiset(r);
    r
  }

  const EmptyInputMessage := "조회 범위를 입력해주세요 (예: 3-1, 3학년, 전체)"
  const FormatMessage := "올바른 형식으로 입력해주세요 (예: 3-1, 3학년, 전체)"
  const LoadMessage := "기록을 불러오는 중 오류가 발생했습니다."

  /** fetchRecords: a blank input and an unreadable input are refused before the query; otherwise
      the described records whose helper is in scope, newest first. */
  function FetchRecords(classInput: string, joined: seq<HelpRecord>, queryOk: bool): (r: Result<seq<HelpRecord>, string>)
    ensures Trim(classInput) == "" ==> r == Err(EmptyInputMessage)
    ensures Trim(classInput) != "" && ParseClassInput(classInput).None? ==> r == Err(FormatMessage)
    ensures r.Ok? <==> Trim(classInput) != "" && ParseClassInput(classInput).Some? && queryOk
  {
    if Trim(classInput) == "" then Err(EmptyInputMessage)
    else match ParseClassInput(classInput)
      case None => Err(FormatMessage)
      case Some(scope) =>
        if !queryOk then Err(LoadMessage)
        else Ok(Sorting.Filter(DescribedNewestFirst(joined), (x: HelpRecord) => InScope(x, scope)))
  }

  /** The fetched records are exactly the described records whose helper is in scope, as many as
      there are, newest first. */
  lemma FetchRecordsSpec(classInput: string, joined: seq<HelpRecord>)
    requires Trim(classInput) != "" && ParseClassInput(classInput).Some?
    ensures var scope := ParseClassInput(classInput).value;
      var r := FetchRecords(classInput, joined, true).value;
      && (forall x :: x in r <==> x in joined && Described(x) && InScope(x, scope))
      && |r| == Sorting.Count(DescribedNewestFirst(joined), (x: HelpRecord) => InScope(x, scope))
      && Sorting.SortedBy(r, NewestFirst)
  {
    var scope := ParseClassInput(classInput).value;
    var p := (x: HelpRecord) => InScope(x, scope);
    var all := DescribedNewestFirst(joined);
    Sorting.FilterMembers(all, p);
    Sorting.CountIsFilterLength(all, p);
    Sorting.FilterSorted(all, p, NewestFirst);
  }

  /** The buttons a record shows. */
  datatype Actions = ConvertOnly | ApproveOrReconvert | UnapproveOnly

  /** Case 1 without AI text, case 2 with AI text and not approved, case 3 with AI text and
      approved. */
  function ActionsFor(tx: Transaction): (a: Actions)
    ensures a == ConvertOnly <==> !Truthy(tx.aiText)
    ensures a == ApproveOrReconvert <==> Truthy(tx.aiText) && !tx.isApproved
    ensures a == UnapproveOnly <==> Truthy(tx.aiText) && tx.isApproved
  {
    if !Truthy(tx.aiText) then ConvertOnly
    else if !tx.isApproved then ApproveOrReconvert
    else UnapproveOnly
  }

  /** `.update(...).eq('transaction_id', id)`. */
  function UpdateTx(rows: seq<Transaction>, id: int, f: Transaction -> Transaction): (r: seq<Transaction>)
    ensures |r| == |rows|
    ensures forall i :: 0 <= i < |rows| ==> r[i] == if rows[i].transactionId == id then f(rows[i]) else rows[i]
  {
    Sorting.MapSeq(rows, (x: Transaction) => if x.transactionId == id then f(x) else x)
  }

  function Approved(x: Transaction, now: int): Transaction {
    x.(isApproved := true, approvedAt := Some(now))
  }

  function Rejected(x: Transaction): Transaction {
    x.(aiText := None)
  }

  function Unapproved(x: Transaction): Transaction {
    x.(isApproved := false, approvedAt := None, aiText := None)
  }

  /** Rejecting or withdrawing approval sends the record back to case 1, where it can be
      converted again; approving a converted record moves it to case 3. */
  lemma ActionsAfterUpdates(x: Transaction, now: int)
    ensures ActionsFor(Rejected(x)) == ConvertOnly
    ensures ActionsFor(Unapproved(x)) == ConvertOnly && !Unapproved(x).isApproved
    ensures Truthy(x.aiText) ==> ActionsFor(Approved(x, now)) == UnapproveOnly
    ensures Unapproved(Approved(x, now)) == Unapproved(x)
  {
  }

  datatype Outcome = Refused | Cancelled | Failed | Done

  /** An update that keeps the transaction id keeps the table keyed. */
  lemma UpdateTxKeepsIds(rows: seq<Transaction>, id: int, f: Transaction -> Transaction, next: int)
    requires UniqueTransactionIds(rows) && forall x :: x in rows ==> x.transactionId < next
    requires forall x :: f(x).transactionId == x.transactionId
    ensures UniqueTransactionIds(UpdateTx(rows, id, f)) && forall x :: x in UpdateTx(rows, id, f) ==> x.transactionId < next
  {
    var u := UpdateTx(rows, id, f);
    forall x | x in u ensures x.transactionId < next {
      var i :| 0 <= i < |u| && u[i] == x;
      assert rows[i] in rows;
    }
  }

  /** handleApprove: after the confirmation, marks the record approved at `now`. */
  method HandleApprove(t: TransactionsTable, id: int, now: int, confirmed: bool, updateOk: bool) returns (o: Outcome)
    requires t.Valid()
    modifies t
    ensures t.Valid() && t.nextId == old(t.nextId)
    ensures o == (if !confirmed then Cancelled else if !updateOk then Failed else Done)
    ensures t.rows == if o == Done then UpdateTx(old(t.rows), id, (x: Transaction) => Approved(x, now)) else old(t.rows)
  {
    if !confirmed {
      return Cancelled;
    }
    if !updateOk {
      return Failed;
    }
    UpdateTxKeepsIds(t.rows, id, (x: Transaction) => Approved(x, now), t.nextId);
    t.rows := UpdateTx(t.rows, id, (x: Transaction) => Approved(x, now));
    o := Done;
  }

  /** handleReject: after the confirmation, clears only the AI text. */
  method HandleReject(t: TransactionsTable, id: int, confirmed: bool, updateOk: bool) returns (o: Outcome)
    requires t.Valid()
    modifies t
    ensures t.Valid() && t.nextId == old(t.nextId)
    ensures o == (if !confirmed then Cancelled else if !updateOk then Failed else Done)
    ensures t.rows == if o == Done then UpdateTx(old(t.rows), id, Rejected) else old(t.rows)
  {
    if !confirmed {
      return Cancelled;
    }
    if !updateOk {
      return Failed;
    }
    UpdateTxKeepsIds(t.rows, id, Rejected, t.nextId);
    t.rows := UpdateTx(t.rows, id, Rejected);
    o := Done;
  }

  /** handleUnapprove: after the confirmation, clears the approval, its instant and the AI text. */
  method HandleUnapprove(t: TransactionsTable, id: int, confirmed: bool, updateOk: bool) returns (o: Outcome)
    requires t.Valid()
    modifies t
    ensures t.Valid() && t.nextId == old(t.nextId)
    ensures o == (if !confirmed then Cancelled else if !updateOk then Failed else Done)
    ensures t.rows == if o == Done then UpdateTx(old(t.rows), id, Unapproved) else old(t.rows)
  {
    if !confirmed {
      return Cancelled;
    }
    if !updateOk {
      return Failed;
    }
    UpdateTxKeepsIds(t.rows, id, Unapproved, t.nextId);
    t.rows := UpdateTx(t.rows, id, Unapproved);
    o := Done;
  }

  /** `records.find(r => r.id === id)`: the first shown record with that id, if any. */
  function FindRecord(records: seq<HelpRecord>, id: int): (r: Option<HelpRecord>)
    ensures r.Some? ==> r.value in records && r.value.tx.transactionId == id
    ensures r.Some? ==> exists i :: 0 <= i < |records| && records[i] == r.value
                                    && forall j :: 0 <= j < i ==> records[j].tx.transactionId != id
    ensures r.None? ==> forall x :: x in records ==> x.tx.transactionId != id
  {
    Sorting.Find(records, (x: HelpRecord) => x.tx.transactionId, id)
  }

  /** handleConvert: refused without an API key, and for a record that is not shown or has no
      description; then the confirmation; then the conversion's text is stored as the AI text. */
  method HandleConvert(t: TransactionsTable, shown: seq<HelpRecord>, id: int, apiKeyConfigured: bool,
                       confirmed: bool, converted: Result<string, string>, updateOk: bool)
    returns (o: Outcome)
    requires t.Valid()
    modifies t
    ensures t.Valid() && t.nextId == old(t.nextId)
    ensures var found := FindRecord(shown, id);
      o == Refused <==> !apiKeyConfigured || found.None? || !Truthy(found.value.tx.helpDescription)
    ensures o == Done <==> o != Refused && confirmed && converted.Ok? && updateOk
    ensures t.rows == if o == Done then UpdateTx(old(t.rows), id, (x: Transaction) => x.(aiText := Some(converted.value)))
                      else old(t.rows)
  {
    if !apiKeyConfigured {
      return Refused;
    }
    var found := FindRecord(shown, id);
    if found.None? || !Truthy(found.value.tx.helpDescription) {
      return Refused;
    }
    if !confirmed {
      return Cancelled;
    }
    if converted.Err? || !updateOk {
      return Failed;
    }
    var text := converted.value;
    UpdateTxKeepsIds(t.rows, id, (x: Transaction) => x.(aiText := Some(text)), t.nextId);
    t.rows := UpdateTx(t.rows, id, (x: Transaction) => x.(aiText := Some(text)));
    o := Done;
  }

  predicate IsApproved(r: HelpRecord) {
    r.tx.isApproved
  }

  predicate IsNotApproved(r: HelpRecord) {
    !r.tx.isApproved
  }

  /** The summary line: approved plus unapproved is the total. */
  lemma {:induction false} ApprovalCounts(records: seq<HelpRecord>)
    ensures Sorting.Count(records, IsApproved) + Sorting.Count(records, IsNotApproved) == |records|
  {
    if records != [] {
      ApprovalCounts(records[1..]);
    }
  }
}
