/** The reset part of the teacher's help tab (src/modules/admin/AdminHelpTab.jsx): the scope
    typed by the teacher and the scoped bulk deactivation of `help_requests`. */
module AdminHelp {
  import opened Wrappers
  import opened Text
  import opened Database
  import Help

  /** The scope of a reset: `None` grade for everything, `None` class for a whole grade. */
  datatype ResetScope = ResetScope(grade: Option<int>, classNumber: Option<int>, caption: string)

  const AllLabel := "전체"

  /** The "학년" form: `parseInt` of the text with its first "학년" removed. */
  function GradeScope(t: string): (r: Option<ResetScope>)
    ensures r.Some? <==> ParseInt(ReplaceFirst(t, "학년", "")).Num?
    ensures r.Some? ==> r.value.grade == Some(ParseInt(ReplaceFirst(t, "학년", "")).value) && r.value.classNumber.None?
  {
    match ParseInt(ReplaceFirst(t, "학년", ""))
    case NaN => None
    case Num(g) => Some(ResetScope(Some(g), None, IntToString(g) + "학년 전체"))
  }

  /** The '-' form: `const [grade, classNumber] = t.split('-').map(Number)`; a missing second
      piece is `Number(undefined)`, NaN. */
  function ClassScope(t: string): (r: Option<ResetScope>)
    ensures var parts := Split(t, '-');
      && (r.Some? <==> ToNumber(parts[0]).Num? && |parts| > 1 && ToNumber(parts[1]).Num?)
      && (r.Some? ==> r.value.grade == Some(ToNumber(parts[0]).value) && r.value.classNumber == Some(ToNumber(parts[1]).value))
  {
    var parts := Split(t, '-');
    var c := if |parts| > 1 then ToNumber(parts[1]) else NaN;
    match (ToNumber(parts[0]), c)
    case (Num(g), Num(n)) => Some(ResetScope(Some(g), Some(n), IntToString(g) + "학년 " + IntToString(n) + "반"))
    case _ => None
  }

  /** parseResetScope on the trimmed input: "전체" is everything; then text containing "학년"
      is a grade; then text containing '-' is a class; anything else is no scope. */
  function ParseResetScope(input: string): (r: Option<ResetScope>)
    ensures Trim(input) == "전체" ==> r == Some(ResetScope(None, None, AllLabel))
    ensures Trim(input) != "전체" && Contains(Trim(input), "학년") ==> r == GradeScope(Trim(input))
    ensures Trim(input) != "전체" && !Contains(Trim(input), "학년") && '-' in Trim(input) ==> r == ClassScope(Trim(input))
    ensures Trim(input) != "전체" && !Contains(Trim(input), "학년") && '-' !in Trim(input) ==> r.None?
  {
    var t := Trim(input);
    if t == "전체" then Some(ResetScope(None, None, AllLabel))
    else if Contains(t, "학년") then GradeScope(t)
    else if '-' in t then ClassScope(t)
    else None
  }

  /** Text without the character '학' does not contain "학년". */
  lemma {:induction false} NoGradeWord(s: string)
    requires forall i :: 0 <= i < |s| ==> s[i] != '학'
    ensures !Contains(s, "학년")
  {
    if s != [] {
      assert !StartsWith(s, "학년") by {
        assert s[0] != '학';
      }
      NoGradeWord(s[1..]);
    }
  }

  /** Text that starts and ends with a digit or a letter is its own trim, and is not "전체" when
      it starts with a digit. */
  lemma PlainText(t: string)
    requires t != [] && IsDigit(t[0]) && !IsSpace(t[|t| - 1])
    ensures Trim(t) == t && t != "전체"
  {
    TrimPadded("", t, "");
    assert "" + t + "" == t;
    assert t[0] != "전체"[0];
  }

  /** Text "A학년", for A starting with a digit and holding no '학', is read by the grade form
      from A. */
  lemma GradeWordForm(a: string, t: string)
    requires t == a + "학년" && a != [] && IsDigit(a[0])
    requires forall i :: 0 <= i < |a| ==> a[i] != '학'
    ensures ParseResetScope(t) == GradeScope(t) && ReplaceFirst(t, "학년", "") == a
  {
    assert t[0] == a[0] && t[|t| - 1] == '년';
    RemoveLast(a, "학년");
    PlainGradeText(t);
  }

  /** "학년" is looked for before '-': "G-C학년" is the whole grade G, not the class. */
  lemma GradeBeforeDash(g: string, c: string)
    requires g != [] && AllDigits(g) && AllDigits(c)
    ensures var s := ParseResetScope(g + "-" + c + "학년");
      s.Some? && s.value.grade == Some(DigitsValue(g) as int) && s.value.classNumber.None?
  {
    var a := g + "-" + c;
    DigitsDashNoHak(g, c);
    assert a[0] == g[0];
    DigitsDashParseInt(g, c);
    GradeWordValue(a, DigitsValue(g));
  }

  /** `parseInt` reads the grade of "G-C". */
  lemma DigitsDashParseInt(g: string, c: string)
    requires g != [] && AllDigits(g)
    ensures ParseInt(g + "-" + c) == Num(DigitsValue(g))
  {
    assert g + "-" + c == g + ("-" + c);
    ParseIntPrefix(g, "-" + c);
  }

  /** "A학년" is the whole grade `parseInt(A)`. */
  lemma GradeWordValue(a: string, v: int)
    requires a != [] && IsDigit(a[0]) && ParseInt(a) == Num(v)
    requires forall i :: 0 <= i < |a| ==> a[i] != '학'
    ensures var s := ParseResetScope(a + "학년");
      s.Some? && s.value.grade == Some(v) && s.value.classNumber.None?
  {
    GradeWordForm(a, a + "학년");
  }

  /** "G-C" of digits is its own trim, is not "전체" and holds no "학년". */
  lemma DigitsDashPlain(g: string, c: string)
    requires g != [] && AllDigits(g) && AllDigits(c)
    ensures var t := g + "-" + c; Trim(t) == t && t != "전체" && !Contains(t, "학년")
  {
    var t := g + "-" + c;
    assert t[0] == g[0];
    assert t[|t| - 1] == '-' || IsDigit(t[|t| - 1]);
    PlainText(t);
    DigitsDashNoGradeWord(g, c);
  }

  lemma DigitsDashNoGradeWord(g: string, c: string)
    requires AllDigits(g) && AllDigits(c)
    ensures !Contains(g + "-" + c, "학년")
  {
    DigitsDashNoHak(g, c);
    NoGradeWord(g + "-" + c);
  }

  lemma DigitsDashNoHak(g: string, c: string)
    requires AllDigits(g) && AllDigits(c)
    ensures var t := g + "-" + c; forall i :: 0 <= i < |t| ==> t[i] != '학'
  {
    var t := g + "-" + c;
    forall i | 0 <= i < |t| ensures t[i] != '학' {
      if i < |g| {
        assert t[i] == g[i];
      } else if i > |g| {
        assert t[i] == c[i - |g| - 1];
      }
    }
  }

  /** Plain text that starts with a digit, ends in "년" and contains "학년" is read by the grade
      form. */
  lemma PlainGradeText(t: string)
    requires t != [] && IsDigit(t[0]) && t[|t| - 1] == '년' && Contains(t, "학년")
    ensures ParseResetScope(t) == GradeScope(t)
  {
    PlainText(t);
    ReadsAsGrade(t);
  }

  lemma ReadsAsGrade(t: string)
    requires Trim(t) == t && t != "전체" && Contains(t, "학년")
    ensures ParseResetScope(t) == GradeScope(t)
  {
  }

  /** "G-C" of digits splits into G and C. */
  lemma DigitsDashSplit(g: string, c: string)
    requires AllDigits(g) && AllDigits(c)
    ensures Split(g + "-" + c, '-') == [g, c]
  {
    assert forall i :: 0 <= i < |g| ==> g[i] != '-';
    assert forall i :: 0 <= i < |c| ==> c[i] != '-';
    SplitAround(g, c, '-');
    assert g + ['-'] + c == g + "-" + c;
  }

  /** The '-' form of digits "G-C" gives grade G and class C. */
  lemma ClassForm(g: string, c: string)
    requires g != [] && AllDigits(g) && AllDigits(c)
    ensures ParseResetScope(g + "-" + c) == ClassScope(g + "-" + c)
    ensures Split(g + "-" + c, '-') == [g, c]
  {
    DigitsDashPlain(g, c);
    DigitsDashSplit(g, c);
    assert '-' in g + "-" + c by {
      assert (g + "-" + c)[|g|] == '-';
    }
  }

  /** `Number('')` is 0, so "G-" reads as class 0 of grade G, and "G-C" as class C. */
  lemma DashForms(g: string, c: string)
    requires g != [] && AllDigits(g) && AllDigits(c)
    ensures var s := ParseResetScope(g + "-" + c);
      s.Some? && s.value.grade == Some(DigitsValue(g) as int) && s.value.classNumber == Some(DigitsValue(c) as int)
    ensures var s := ParseResetScope(g + "-");
      s.Some? && s.value.grade == Some(DigitsValue(g) as int) && s.value.classNumber == Some(0)
  {
    ClassForm(g, c);
    ToNumberDigits(g);
    ToNumberDigits(c);
    ClassForm(g, "");
    assert g + "-" + "" == g + "-";
    ToNumberDigits("");
  }

  /** A class side that is not a number makes the input unreadable. */
  lemma NaNClassRejected(g: string)
    requires g != [] && AllDigits(g)
    ensures ParseResetScope(g + "-x") == None
  {
    var t := g + "-x";
    assert t[0] == g[0] && t[|t| - 1] == 'x';
    PlainText(t);
    GradeWordBeforeX(g);
    XSplit(g);
    assert '-' in t by {
      assert t[|g|] == '-';
    }
    XIsNaN();
  }

  lemma GradeWordBeforeX(g: string)
    requires AllDigits(g)
    ensures !Contains(g + "-x", "학년")
  {
    var t := g + "-x";
    forall i | 0 <= i < |t| ensures t[i] != '학' {
      if i < |g| {
        assert t[i] == g[i];
      }
    }
    NoGradeWord(t);
  }

  lemma XSplit(g: string)
    requires AllDigits(g)
    ensures Split(g + "-x", '-') == [g, "x"]
  {
    assert forall i :: 0 <= i < |g| ==> g[i] != '-';
    assert "x"[0] != '-';
    SplitAround(g, "x", '-');
    assert g + ['-'] + "x" == g + "-x";
  }

  lemma PlainText2(t: string)
    requires t != [] && !IsSpace(t[0]) && !IsSpace(t[|t| - 1])
    ensures Trim(t) == t
  {
    TrimPadded("", t, "");
    assert "" + t + "" == t;
  }

  lemma XIsNaN()
    ensures ToNumber("x") == NaN
  {
    var x := "x";
    PlainText2(x);
    assert !IsDigit(x[0]);
  }

  /** The students a scope names: all for everything, else the grade, and the class if given. */
  predicate InScope(s: Student, scope: ResetScope) {
    && (scope.grade.Some? ==> s.grade == scope.grade.value)
    && (scope.classNumber.Some? ==> s.classNumber == scope.classNumber.value)
  }

  /** The ids of the students in scope. */
  function ScopeIds(students: seq<Student>, scope: ResetScope): (ids: set<string>)
    ensures forall id :: id in ids <==> exists s :: s in students && InScope(s, scope) && s.id == id
  {
    set s | s in students && InScope(s, scope) :: s.id
  }

  datatype ResetOutcome = BadFormat | Cancelled | NoStudents | Failed | Done(caption: string)

  /** handleReset: an unreadable scope and a refused confirmation change nothing; a grade or
      class with no students changes nothing; otherwise the active requests of the students in
      scope (of everyone, for "전체") are deactivated and all other rows are left as they were. */
  method HandleReset(help: HelpRequestsTable, students: seq<Student>, input: string, confirmed: bool,
                     studentsOk: bool, updateOk: bool) returns (o: ResetOutcome)
    modifies help
    ensures var scope := ParseResetScope(input);
      && (scope.None? ==> o == BadFormat)
      && (scope.Some? && !confirmed ==> o == Cancelled)
      && (o.Done? <==>
            && scope.Some? && confirmed && updateOk
            && (scope.value.grade.Some? ==> studentsOk && ScopeIds(students, scope.value) != {}))
      && (o.Done? ==> o.caption == scope.value.caption)
      && (o.Done? && scope.value.grade.None? ==> help.rows == Help.DeactivateAll(old(help.rows), old(help.rows).Keys))
      && (o.Done? && scope.value.grade.Some? ==> help.rows == Help.DeactivateAll(old(help.rows), ScopeIds(students, scope.value)))
    ensures !o.Done? ==> help.rows == old(help.rows)
  {
    var scope := ParseResetScope(input);
    if scope.None? {
      return BadFormat;
    }
    if !confirmed {
      return Cancelled;
    }
    var ids := help.rows.Keys;
    if scope.value.grade.Some? {
      if !studentsOk {
        return Failed;
      }
      ids := ScopeIds(students, scope.value);
      if ids == {} {
        return NoStudents;
      }
    }
    if !updateOk {
      return Failed;
    }
    help.rows := Help.DeactivateAll(help.rows, ids);
    o := Done(scope.value.caption);
  }

  /** After a scoped reset no student in scope has an active request, and the rows of students
      out of scope are as they were. */
  lemma ResetEffect(rows: map<string, HelpRequest>, students: seq<Student>, scope: ResetScope, id: string)
    requires id in rows
    ensures var after := Help.DeactivateAll(rows, ScopeIds(students, scope));
      && ((exists s :: s in students && InScope(s, scope) && s.id == id) ==> !after[id].isActive)
      && ((forall s :: s in students && s.id == id ==> !InScope(s, scope)) ==> after[id] == rows[id])
  {
  }
}
