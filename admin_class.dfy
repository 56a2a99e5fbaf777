/** The roster part of the teacher's class tab (src/modules/admin/AdminClassTab.jsx): the CSV
    roster upload, the "G-C" class filter, the add-student form and the login counts. Reading the
    file and each upsert's outcome are inputs. */
module AdminClass {
  import opened Wrappers
  import opened Text
  import opened Database
  import Students
  import Sorting

  /** A roster record parsed from an id and a name: the grade is the first digit of the id, the
      class `parseInt` of its second character and the number `parseInt` of the rest, NaN where
      there is nothing to read. */
  datatype Parsed = Parsed(id: string, name: string, grade: int, classNumber: JsNum, studentNumber: JsNum)

  /** `parseInt(id[k])`; past the end `id[k]` is `undefined`, which reads as NaN. */
  function CharNumber(id: string, k: nat): JsNum {
    if k < |id| then ParseInt([id[k]]) else NaN
  }

  /** `parseInt(id.slice(2))`. */
  function RestNumber(id: string): JsNum {
    if |id| < 2 then NaN else ParseInt(id[2..])
  }

  /** What `parseInt` reads from the characters of an id. */
  lemma IdNumbers(id: string)
    ensures |id| > 0 ==> CharNumber(id, 0) == if IsDigit(id[0]) then Num(DigitVal(id[0])) else NaN
    ensures |id| > 1 ==> CharNumber(id, 1) == if IsDigit(id[1]) then Num(DigitVal(id[1])) else NaN
    ensures |id| > 2 && AllDigits(id[2..]) ==> RestNumber(id) == Num(DigitsValue(id[2..]))
  {
    if |id| > 0 {
      ParseIntChar(id[0]);
    }
    if |id| > 1 {
      ParseIntChar(id[1]);
    }
    if |id| > 2 && AllDigits(id[2..]) {
      ParseIntDigits(id[2..]);
    }
  }

  /** The characters whose digit value is a grade the school has. */
  lemma GradeChars(id: string)
    ensures |id| > 0 ==> (IsDigit(id[0]) && DigitVal(id[0]) in {3, 4, 6} <==> id[0] in "346")
  {
    if |id| > 0 {
      var g: string := "346";
      assert id[0] in g <==> id[0] == g[0] || id[0] == g[1] || id[0] == g[2];
    }
  }

  /** `[3, 4, 6].includes(grade)`. */
  predicate GradeAllowed(grade: JsNum) {
    grade.Num? && grade.value in {3, 4, 6}
  }

  /** The id parse shared by the upload and the add form: no record unless the first character
      is the digit 3, 4 or 6. */
  function ParseId(id: string, name: string): (r: Option<Parsed>)
    ensures r.Some? <==> |id| > 0 && id[0] in "346"
    ensures r.Some? ==> r.value.id == id && r.value.name == name && r.value.grade == DigitVal(id[0])
    ensures r.Some? ==> (r.value.classNumber.Num? <==> |id| > 1 && IsDigit(id[1]))
    ensures r.Some? && |id| > 1 && IsDigit(id[1]) ==> r.value.classNumber.value == DigitVal(id[1])
    ensures r.Some? && |id| > 2 && AllDigits(id[2..]) ==> r.value.studentNumber == Num(DigitsValue(id[2..]))
  {
    IdNumbers(id);
    GradeChars(id);
    var grade := CharNumber(id, 0);
    if GradeAllowed(grade) then Some(Parsed(id, name, grade.value, CharNumber(id, 1), RestNumber(id))) else None
  }

  /** One roster line: `line.split(',').map(s => s.trim())` destructured into id and name; a line
      with an empty id or name (or no name at all) gives nothing. */
  function LineRecord(line: string): (r: Option<Parsed>)
    ensures r.Some? ==> r.value.id != "" && r.value.name != "" && r.value.grade in {3, 4, 6}
  {
    var parts := Split(line, ',');
    if |parts| < 2 then None
    else
      var id, name := Trim(parts[0]), Trim(parts[1]);
      if id == "" || name == "" then None
      else ParseId(id, name)
  }

  /** A roster line "id,name", each field possibly padded with white space, of a digit id
      starting with 3, 4 or 6 and at least three long, gives the record with grade, class and
      number read from the id and the trimmed name. */
  lemma RosterLine(p1: string, id: string, p2: string, p3: string, name: string, p4: string)
    requires IsBlank(p1) && IsBlank(p2) && IsBlank(p3) && IsBlank(p4)
    requires |id| >= 3 && AllDigits(id) && id[0] in "346"
    requires name != [] && !IsSpace(name[0]) && !IsSpace(name[|name| - 1]) && ',' !in name
    ensures LineRecord(p1 + id + p2 + "," + p3 + name + p4)
      == Some(Parsed(id, name, DigitVal(id[0]), Num(DigitVal(id[1])), Num(DigitsValue(id[2..]))))
  {
    var left, right := p1 + id + p2, p3 + name + p4;
    assert ',' !in id by {
      assert forall i :: 0 <= i < |id| ==> IsDigit(id[i]);
    }
    PaddedNoComma(p1, id, p2);
    PaddedNoComma(p3, name, p4);
    SplitAround(left, right, ',');
    assert p1 + id + p2 + "," + p3 + name + p4 == left + [','] + right;
    assert IsDigit(id[0]) && IsDigit(id[|id| - 1]);
    TrimPadded(p1, id, p2);
    TrimPadded(p3, name, p4);
    FieldsRecord(left + [','] + right, id, name);
    DigitIdRecord(id, name);
  }

  lemma PaddedNoComma(p: string, x: string, q: string)
    requires IsBlank(p) && IsBlank(q) && ',' !in x
    ensures ',' !in p + x + q
  {
    var s := p + x + q;
    forall i | 0 <= i < |s| ensures s[i] != ',' {
      if i < |p| {
        assert s[i] == p[i];
      } else if i < |p| + |x| {
        assert s[i] == x[i - |p|];
      } else {
        assert s[i] == q[i - |p| - |x|];
      }
    }
  }

  /** A line whose two comma-separated fields trim to a non-empty id and name gives the record
      of that id and name. */
  lemma FieldsRecord(line: string, id: string, name: string)
    requires |Split(line, ',')| == 2 && Trim(Split(line, ',')[0]) == id && Trim(Split(line, ',')[1]) == name
    requires id != "" && name != ""
    ensures LineRecord(line) == ParseId(id, name)
  {
  }

  /** The record of a digit id at least three long that starts with 3, 4 or 6. */
  lemma DigitIdRecord(id: string, name: string)
    requires |id| >= 3 && AllDigits(id) && id[0] in "346"
    ensures ParseId(id, name) == Some(Parsed(id, name, DigitVal(id[0]), Num(DigitVal(id[1])), Num(DigitsValue(id[2..]))))
  {
    assert IsDigit(id[1]);
    assert AllDigits(id[2..]) by {
      assert forall i :: 0 <= i < |id[2..]| ==> id[2..][i] == id[i + 2];
    }
  }

  /** The lines with a character that is not white space, in order
      (`filter(line => line.trim())`). */
  function NonBlank(lines: seq<string>): (r: seq<string>)
    ensures |r| <= |lines|
    ensures forall i :: 0 <= i < |r| ==> !IsBlank(r[i])
  {
    if lines == [] then []
    else if IsBlank(lines[0]) then NonBlank(lines[1..])
    else [lines[0]] + NonBlank(lines[1..])
  }

  /** The lines that can give students: the non-blank lines after the first, the header. */
  function StudentLines(csv: string): seq<string> {
    var lines := NonBlank(Split(csv, '\n'));
    if lines == [] then [] else lines[1..]
  }

  /** The `Some` results of `f` over `xs`, in order: a loop that pushes what `f` yields. */
  function Choose<T, U>(xs: seq<T>, f: T -> Option<U>): seq<U> {
    if xs == [] then []
    else
      var last := f(xs[|xs| - 1]);
      Choose(xs[..|xs| - 1], f) + (if last.Some? then [last.value] else [])
  }

  /** Every chosen value comes from an element of its own: there are at most as many values as
      elements, and each is the result of `f` on one of them. */
  lemma {:induction false} ChooseSpec<T, U>(xs: seq<T>, f: T -> Option<U>)
    ensures |Choose(xs, f)| <= |xs|
    ensures forall y :: y in Choose(xs, f) ==> exists i :: 0 <= i < |xs| && f(xs[i]) == Some(y)
  {
    if xs != [] {
      var init := xs[..|xs| - 1];
      ChooseSpec(init, f);
      forall y | y in Choose(xs, f) ensures exists i :: 0 <= i < |xs| && f(xs[i]) == Some(y) {
        if y in Choose(init, f) {
          var i :| 0 <= i < |init| && f(init[i]) == Some(y);
          assert xs[i] == init[i];
        } else {
          assert f(xs[|xs| - 1]) == Some(y);
        }
      }
    }
  }

  /** Choosing is done element by element: the values of two blocks are those of the first
      followed by those of the second. */
  lemma {:induction false} ChooseAppend<T, U>(a: seq<T>, b: seq<T>, f: T -> Option<U>)
    ensures Choose(a + b, f) == Choose(a, f) + Choose(b, f)
  {
    if b != [] {
      var ab := a + b;
      assert ab[..|ab| - 1] == a + b[..|b| - 1];
      assert ab[|ab| - 1] == b[|b| - 1];
      ChooseAppend(a, b[..|b| - 1], f);
    } else {
      assert a + b == a;
    }
  }

  /** The records of roster lines, in line order. */
  function Collect(lines: seq<string>): seq<Parsed> {
    Choose(lines, LineRecord)
  }

  lemma {:induction false} NonBlankAppend(a: seq<string>, b: seq<string>)
    ensures NonBlank(a + b) == NonBlank(a) + NonBlank(b)
  {
    if a == [] {
      assert a + b == b;
    } else {
      assert (a + b)[1..] == a[1..] + b;
      NonBlankAppend(a[1..], b);
    }
  }

  /** Splitting at a separator between two texts splits each of them. */
  lemma {:induction false} SplitJoined(a: string, b: string, sep: char)
    ensures Split(a + [sep] + b, sep) == Split(a, sep) + Split(b, sep)
  {
    var s := a + [sep] + b;
    if a == [] {
      assert s[1..] == b;
    } else {
      assert s[1..] == a[1..] + [sep] + b;
      SplitJoined(a[1..], b, sep);
    }
  }

  /** The header line never gives a student: after a non-blank first line, the records are
      exactly those of the lines that follow it. */
  lemma HeaderSkipped(header: string, body: string)
    requires !IsBlank(header) && '\n' !in header
    ensures StudentLines(header + "\n" + body) == NonBlank(Split(body, '\n'))
  {
    SplitJoined(header, body, '\n');
    assert header + "\n" + body == header + ['\n'] + body;
    SplitNoSep(header, '\n');
    NonBlankAppend([header], Split(body, '\n'));
  }

  /** handleFileUpload's parsing loop: the records pushed for the lines after the header. */
  method ParseCsv(csv: string) returns (records: seq<Parsed>)
    ensures records == Collect(StudentLines(csv))
    ensures forall x :: x in records ==> x.id != "" && x.name != "" && x.grade in {3, 4, 6}
  {
    var studentLines := StudentLines(csv);
    records := [];
    for i := 0 to |studentLines|
      invariant records == Choose(studentLines[..i], LineRecord)
    {
      assert studentLines[..i + 1][..i] == studentLines[..i];
      var r := LineRecord(studentLines[i]);
      if r.Some? {
        records := records + [r.value];
      }
    }
    assert studentLines[..|studentLines|] == studentLines;
    forall x | x in records ensures x.id != "" && x.name != "" && x.grade in {3, 4, 6} {
      ChooseSpec(studentLines, LineRecord);
    }
  }

  /** A record the students table can hold: its class and number are numbers. */
  predicate Storable(x: Parsed) {
    x.classNumber.Num? && x.studentNumber.Num?
  }

  function StudentOf(x: Parsed): Student
    requires Storable(x)
  {
    Student(x.id, x.name, x.grade, x.classNumber.value, x.studentNumber.value)
  }

  /** Whether the upload of record `x` succeeds, given the outcome of its upsert. */
  predicate Uploaded(x: Parsed, ok: bool) {
    ok && Storable(x)
  }

  /** The roster after uploading the records one after the other. */
  function UploadAll(rows: seq<Student>, records: seq<Parsed>, outcomes: seq<bool>): seq<Student>
    requires |outcomes| == |records|
  {
    if records == [] then rows
    else
      var n := |records| - 1;
      var before := UploadAll(rows, records[..n], outcomes[..n]);
      if Uploaded(records[n], outcomes[n]) then Students.Upsert(before, StudentOf(records[n])) else before
  }

  /** The number of uploads that succeed. */
  function Successes(records: seq<Parsed>, outcomes: seq<bool>): (n: nat)
    requires |outcomes| == |records|
  {
    if records == [] then 0
    else
      var n := |records| - 1;
      Successes(records[..n], outcomes[..n]) + (if Uploaded(records[n], outcomes[n]) then 1 else 0)
  }

  /** Only records the upsert accepted are counted, so the count never exceeds the records. */
  lemma {:induction false} SuccessesBound(records: seq<Parsed>, outcomes: seq<bool>)
    requires |outcomes| == |records|
    ensures Successes(records, outcomes) <= |records|
    ensures Successes(records, outcomes) == |records| <==> forall i :: 0 <= i < |records| ==> Uploaded(records[i], outcomes[i])
  {
    if records != [] {
      var n := |records| - 1;
      SuccessesBound(records[..n], outcomes[..n]);
      assert forall i :: 0 <= i < n ==> records[..n][i] == records[i] && outcomes[..n][i] == outcomes[i];
    }
  }

  /** The upload loop of handleFileUpload: each record is upserted in turn, a failed upsert
      skipping that record only, and `successCount` counts the upserts that succeeded. */
  method UploadRecords(t: StudentsTable, records: seq<Parsed>, outcomes: seq<bool>) returns (successCount: nat)
    requires t.Valid() && |outcomes| == |records|
    modifies t
    ensures t.Valid()
    ensures successCount == Successes(records, outcomes) && successCount <= |records|
    ensures t.rows == UploadAll(old(t.rows), records, outcomes)
  {
    successCount := 0;
    for i := 0 to |records|
      invariant t.Valid()
      invariant successCount == Successes(records[..i], outcomes[..i])
      invariant t.rows == UploadAll(old(t.rows), records[..i], outcomes[..i])
    {
      assert records[..i + 1][..i] == records[..i] && outcomes[..i + 1][..i] == outcomes[..i];
      if Storable(records[i]) {
        var r := Students.CreateOrUpdateStudent(t, StudentOf(records[i]), outcomes[i]);
        if r.Ok? {
          successCount := successCount + 1;
        }
      }
    }
    assert records[..|records|] == records && outcomes[..|outcomes|] == outcomes;
    SuccessesBound(records, outcomes);
  }

  /** A student of the listing matches the parsed grade and class; NaN matches nothing. */
  predicate Matches(st: Students.StudentStatus, grade: JsNum, classNumber: JsNum) {
    grade == Num(st.student.grade) && classNumber == Num(st.student.classNumber)
  }

  /** The class filter effect: a blank filter, or one that does not split into exactly two
      pieces at '-', shows everyone; otherwise exactly the students whose grade and class equal
      the two `parseInt`s, in listing order. */
  function ClassFilter(students: seq<Students.StudentStatus>, classFilter: string): (r: seq<Students.StudentStatus>)
    ensures Trim(classFilter) == "" || |Split(classFilter, '-')| != 2 ==> r == students
    ensures Trim(classFilter) != "" && |Split(classFilter, '-')| == 2 ==>
      var parts := Split(classFilter, '-');
      forall x :: x in r <==> x in students && Matches(x, ParseInt(parts[0]), ParseInt(parts[1]))
    ensures |r| <= |students|
  {
    var parts := Split(classFilter, '-');
    if Trim(classFilter) == "" || |parts| != 2 then students
    else
      var grade, classNumber := ParseInt(parts[0]), ParseInt(parts[1]);
      var p := (x: Students.StudentStatus) => Matches(x, grade, classNumber);
      Sorting.FilterMembers(students, p);
      Sorting.Filter(students, p)
  }

  /** "G-C" of digit runs shows exactly the students of grade G, class C. */
  lemma ClassFilterDigits(students: seq<Students.StudentStatus>, g: string, c: string)
    requires g != [] && c != [] && AllDigits(g) && AllDigits(c)
    ensures forall x :: x in ClassFilter(students, g + "-" + c) <==>
      x in students && x.student.grade == DigitsValue(g) && x.student.classNumber == DigitsValue(c)
  {
    var t := g + "-" + c;
    assert Split(t, '-') == [g, c] by {
      assert forall i :: 0 <= i < |g| ==> g[i] != '-';
      assert forall i :: 0 <= i < |c| ==> c[i] != '-';
      SplitAround(g, c, '-');
      assert g + ['-'] + c == t;
    }
    assert Trim(t) != "" by {
      assert !IsSpace(t[0]) by {
        assert t[0] == g[0];
      }
      TrimEmptyIffBlank(t);
    }
    ParseIntDigits(g);
    ParseIntDigits(c);
  }

  /** The list the tab shows: the filtered list for a non-empty filter, otherwise everyone. */
  function Display(students: seq<Students.StudentStatus>, classFilter: string): seq<Students.StudentStatus> {
    if classFilter != "" then ClassFilter(students, classFilter) else students
  }

  /** Whatever the filter, the tab shows the class filter's list: an empty filter is blank. */
  lemma DisplayIsFiltered(students: seq<Students.StudentStatus>, classFilter: string)
    ensures Display(students, classFilter) == ClassFilter(students, classFilter)
  {
    if classFilter == "" {
      assert Trim(classFilter) == "";
    }
  }

  predicate LoggedIn(st: Students.StudentStatus) {
    st.isLoggedIn
  }

  /** `loggedInCount`. */
  function LoggedInCount(shown: seq<Students.StudentStatus>): nat {
    Sorting.Count(shown, LoggedIn)
  }

  /** At most every shown student is logged in, and the students not logged in are the
      difference of the total and the logged-in count. */
  lemma LoginCounts(shown: seq<Students.StudentStatus>)
    ensures LoggedInCount(shown) <= |shown|
    ensures |shown| - LoggedInCount(shown) == Sorting.Count(shown, x => !LoggedIn(x))
  {
    Sorting.CountSplit(shown, LoggedIn);
  }

  datatype AddOutcome = MissingField | BadGrade | Failed | Added(name: string)

  /** handleAddStudent: an empty id or name, then a first character other than 3, 4 or 6, stops
      before the table; a record whose class or number is not a number, or a failed upsert, is a
      failure; otherwise the student is upserted. */
  method HandleAddStudent(t: StudentsTable, studentId: string, name: string, upsertOk: bool) returns (o: AddOutcome)
    requires t.Valid()
    modifies t
    ensures t.Valid()
    ensures studentId == "" || name == "" ==> o == MissingField
    ensures studentId != "" && name != "" && studentId[0] !in "346" ==> o == BadGrade
    ensures o.Added? <==> studentId != "" && name != "" && studentId[0] in "346" && upsertOk
                          && Storable(ParseId(studentId, name).value)
    ensures o.Added? ==> o.name == name && t.rows == Students.Upsert(old(t.rows), StudentOf(ParseId(studentId, name).value))
    ensures !o.Added? ==> t.rows == old(t.rows)
  {
    if studentId == "" || name == "" {
      return MissingField;
    }
    var parsed := ParseId(studentId, name);
    if parsed.None? {
      return BadGrade;
    }
    if !Storable(parsed.value) {
      return Failed;
    }
    var r := Students.CreateOrUpdateStudent(t, StudentOf(parsed.value), upsertOk);
    if r.Err? {
      return Failed;
    }
    o := Added(name);
  }
}
