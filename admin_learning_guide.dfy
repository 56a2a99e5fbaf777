/** The teacher's learning-guide tab (src/modules/admin/AdminLearningGuideTab.jsx): the map from
    grade to class names built from the roster, the target text read against it, and the save
    loop that writes one guide per class. The guide writes themselves are outcomes given per
    class. */
module AdminLearningGuide {
  import opened Wrappers
  import opened Text
  import opened Database
  import Sorting

  /** One grade of the class map: the grade key (`String(grade)`) and its class names "G-C". */
  datatype GradeEntry = GradeEntry(key: string, classes: seq<string>)

  /** The class map, its grades in the order JavaScript lists the integer keys of an object:
      ascending. */
  type ClassMap = seq<GradeEntry>

  /** `${student.grade}-${student.class_number}`. */
  function ClassInfo(s: Student): string {
    IntToString(s.grade) + "-" + IntToString(s.classNumber)
  }

  /** The class names of the students of one grade, once per student, in roster order. */
  function ClassInfos(students: seq<Student>, grade: int): (r: seq<string>)
    ensures forall x :: x in r <==> exists s :: s in students && s.grade == grade && x == ClassInfo(s)
  {
    if students == [] then []
    else
      var rest := ClassInfos(students[1..], grade);
      assert forall s :: s in students <==> s == students[0] || s in students[1..];
      (if students[0].grade == grade then [ClassInfo(students[0])] else []) + rest
  }

  /** `Array.from(classSet).sort()`: the grade's distinct class names in string order. */
  function GradeClasses(students: seq<Student>, grade: int): seq<string> {
    Sorting.Sort(Sorting.Dedup(ClassInfos(students, grade)), LexLe)
  }

  lemma LexLeOrder()
    ensures Sorting.Total(LexLe) && Sorting.Transitive(LexLe)
  {
    forall a, b ensures LexLe(a, b) || LexLe(b, a) {
      LexLeTotal(a, b);
    }
    forall a, b, c | LexLe(a, b) && LexLe(b, c) ensures LexLe(a, c) {
      LexLeTransitive(a, b, c);
    }
  }

  /** Each grade's class list holds exactly the classes of that grade's students, each once,
      in string order. */
  lemma GradeClassesSpec(students: seq<Student>, grade: int)
    ensures var r := GradeClasses(students, grade);
      && Sorting.NoDup(r)
      && Sorting.SortedBy(r, LexLe)
      && forall x :: x in r <==> exists s :: s in students && s.grade == grade && x == ClassInfo(s)
  {
    var d := Sorting.Dedup(ClassInfos(students, grade));
    var r := GradeClasses(students, grade);
    Sorting.PermutationNoDup(d, r);
    LexLeOrder();
    Sorting.SortSorted(d, LexLe);
    forall x ensures x in r <==> x in d {
      assert x in r <==> x in multiset(r);
      assert x in d <==> x in multiset(d);
    }
  }

  predicate IntLe(a: int, b: int) {
    a <= b
  }

  /** The grades of the roster, each once, ascending. */
  function Grades(students: seq<Student>): seq<int> {
    Sorting.Sort(Sorting.Dedup(Sorting.MapSeq(students, (s: Student) => s.grade)), IntLe)
  }

  /** The class map built from the roster. */
  function BuildClassMap(students: seq<Student>): ClassMap {
    Sorting.MapSeq(Grades(students), g => GradeEntry(IntToString(g), GradeClasses(students, g)))
  }

  /** The map has one entry per grade of the roster, each grade once and ascending, keyed by the
      grade's decimal text: a roster with students gives a non-empty map. */
  lemma BuildClassMapSpec(students: seq<Student>)
    ensures var gs := Grades(students);
      && Sorting.NoDup(gs) && Sorting.SortedBy(gs, IntLe)
      && (forall g :: g in gs <==> exists s :: s in students && s.grade == g)
      && |BuildClassMap(students)| == |gs|
      && (forall i :: 0 <= i < |gs| ==> BuildClassMap(students)[i] == GradeEntry(IntToString(gs[i]), GradeClasses(students, gs[i])))
    ensures students != [] ==> BuildClassMap(students) != []
  {
    var grades := Sorting.MapSeq(students, (s: Student) => s.grade);
    var d := Sorting.Dedup(grades);
    var gs := Grades(students);
    Sorting.PermutationNoDup(d, gs);
    assert Sorting.Total(IntLe) && Sorting.Transitive(IntLe);
    Sorting.SortSorted(d, IntLe);
    forall g ensures g in gs <==> exists s :: s in students && s.grade == g {
      assert g in gs <==> g in multiset(gs);
      assert g in d <==> g in multiset(d);
      if g in grades {
        var i :| 0 <= i < |grades| && grades[i] == g;
        assert students[i] in students;
      }
      if exists s :: s in students && s.grade == g {
        var s :| s in students && s.grade == g;
        var i :| 0 <= i < |students| && students[i] == s;
        assert grades[i] == g;
      }
    }
    if students != [] {
      assert students[0].grade in gs;
    }
  }

  /** The classes used when no roster has loaded. */
  const FallbackMap: ClassMap := [
    GradeEntry("3", ["3-1", "3-2", "3-3"]),
    GradeEntry("4", ["4-1", "4-2", "4-3"]),
    GradeEntry("6", ["6-1", "6-2", "6-3", "6-4", "6-5", "6-6", "6-7"])
  ]

  /** `Object.keys(allClasses).length > 0 ? allClasses : gradeClasses`: the roster's map when
      the roster loaded with students, the fixed classes otherwise. */
  function ClassMapFor(roster: Option<seq<Student>>): (m: ClassMap)
    ensures roster.None? || roster.value == [] ==> m == FallbackMap
    ensures roster.Some? && roster.value != [] ==> m == BuildClassMap(roster.value)
  {
    if roster.Some? then BuildClassMapSpec(roster.value); (if roster.value != [] then BuildClassMap(roster.value) else FallbackMap)
    else FallbackMap
  }

  /** `classMap[key]`. */
  function Lookup(m: ClassMap, key: string): (r: Option<seq<string>>)
    ensures r.None? <==> forall i :: 0 <= i < |m| ==> m[i].key != key
    ensures r.Some? ==> exists i :: 0 <= i < |m| && m[i].key == key && m[i].classes == r.value
  {
    if m == [] then None
    else if m[0].key == key then Some(m[0].classes)
    else
      var r := Lookup(m[1..], key);
      assert forall i :: 0 < i < |m| ==> m[i] == m[1..][i - 1];
      r
  }

  /** `Object.values(classMap).flat()`. */
  function Flat(m: ClassMap): (r: seq<string>)
    ensures forall x :: x in r <==> exists i :: 0 <= i < |m| && x in m[i].classes
  {
    if m == [] then []
    else
      var rest := Flat(m[1..]);
      assert forall i :: 0 < i < |m| ==> m[i] == m[1..][i - 1];
      assert forall x :: x in rest <==> exists i :: 0 < i < |m| && x in m[i].classes by {
        forall x | x in rest ensures exists i :: 0 < i < |m| && x in m[i].classes {
          var j :| 0 <= j < |m[1..]| && x in m[1..][j].classes;
          assert m[j + 1] == m[1..][j];
        }
      }
      m[0].classes + rest
  }

  /** The target the guides are written for: a caption and the class names. */
  datatype Scope = Scope(caption: string, classes: seq<string>)

  const EmptyTarget := "❌ 대상을 입력해주세요. (예: 3-1, 3학년, 전체)"
  const NoClasses := "❌ 저장할 학급 정보가 없습니다. 먼저 학급 설정을 확인해주세요."
  const BadFormat := "❌ 올바른 형식으로 입력해주세요. (예: 3-1, 3학년, 전체)"
  const AllCaption := "전체 학년"

  function GradeMissing(key: string): string {
    "❌ " + key + "학년 학급 정보가 설정되어 있지 않습니다."
  }

  function ClassMissing(classInfo: string): string {
    "❌ " + classInfo + " 학급은 존재하지 않습니다."
  }

  /** `input.trim().replace(/\s+/g, '')`: every white-space character removed. */
  function Normalize(input: string): (r: string)
    ensures r == RemoveSpaces(input)
    ensures forall i :: 0 <= i < |r| ==> !IsSpace(r[i])
  {
    RemoveSpacesOfTrim(input);
    RemoveSpaces(Trim(input))
  }

  /** `/^(\d+)학년$/`: a run of digits followed by "학년". */
  predicate GradeWord(n: string) {
    |n| > 2 && n[|n| - 2..] == "학년" && AllDigits(n[..|n| - 2])
  }

  /** `/^(\d+)-(\d+)$/`: two runs of digits around one '-'. */
  predicate ClassWord(n: string) {
    var parts := Split(n, '-');
    |parts| == 2 && parts[0] != [] && parts[1] != [] && AllDigits(parts[0]) && AllDigits(parts[1])
  }

  /** Which of the forms of parseTargetScope a normalized target takes, tried in its order. */
  datatype TargetForm = NoTarget | Everything | GradeForm(gradeKey: string) | ClassForm(gradeKey: string, classNumber: string) | Unreadable

  function FormOf(n: string): (f: TargetForm)
    ensures f == NoTarget <==> n == ""
    ensures f == Everything <==> n == "전체"
    ensures f.GradeForm? <==> n != "" && n != "전체" && GradeWord(n)
    ensures f.GradeForm? ==> f.gradeKey == n[..|n| - 2] && f.gradeKey != []
    ensures f.ClassForm? <==> n != "" && n != "전체" && !GradeWord(n) && ClassWord(n)
    ensures f.ClassForm? ==> [f.gradeKey, f.classNumber] == Split(n, '-') && f.gradeKey + "-" + f.classNumber == n
    ensures f == Unreadable <==> n != "" && n != "전체" && !GradeWord(n) && !ClassWord(n)
  {
    if n == "" then NoTarget
    else if n == "전체" then Everything
    else if GradeWord(n) then GradeForm(n[..|n| - 2])
    else if ClassWord(n) then
      var parts := Split(n, '-');
      ClassWordJoin(n);
      ClassForm(parts[0], parts[1])
    else Unreadable
  }

  lemma ClassWordJoin(n: string)
    requires ClassWord(n)
    ensures var parts := Split(n, '-'); parts[0] + "-" + parts[1] == n
  {
    var parts := Split(n, '-');
    SplitJoin(n, '-');
    assert parts[1..] == [parts[1]];
  }

  /** The result of parseTargetScope on a normalized target. */
  function ParseNormalized(n: string, m: ClassMap): (r: Result<Scope, string>)
    ensures FormOf(n) == NoTarget ==> r == Err(EmptyTarget)
    ensures FormOf(n) == Everything ==> (r.Ok? <==> Flat(m) != []) && (r.Ok? ==> r.value == Scope(AllCaption, Flat(m)))
    ensures FormOf(n).GradeForm? ==>
      var key := FormOf(n).gradeKey;
      && (r.Ok? <==> Lookup(m, key).Some? && Lookup(m, key).value != [])
      && (r.Ok? ==> r.value == Scope(key + "학년", Lookup(m, key).value))
      && (r.Err? ==> r.error == GradeMissing(key))
    ensures FormOf(n).ClassForm? ==>
      var key := FormOf(n).gradeKey;
      && (r.Ok? <==> Lookup(m, key).Some? && n in Lookup(m, key).value)
      && (r.Ok? ==> r.value == Scope(key + "학년 " + FormOf(n).classNumber + "반", [n]))
      && (r.Err? ==> r.error == (if Lookup(m, key).None? || Lookup(m, key).value == [] then GradeMissing(key) else ClassMissing(n)))
    ensures FormOf(n) == Unreadable ==> r == Err(BadFormat)
  {
    match FormOf(n)
    case NoTarget => Err(EmptyTarget)
    case Everything =>
      var classes := Flat(m);
      if classes == [] then Err(NoClasses) else Ok(Scope(AllCaption, classes))
    case GradeForm(key) =>
      var classes := Lookup(m, key);
      if classes.None? || classes.value == [] then Err(GradeMissing(key))
      else Ok(Scope(key + "학년", classes.value))
    case ClassForm(key, classNumber) =>
      var classInfo := key + "-" + classNumber;
      var list := Lookup(m, key);
      if list.None? || list.value == [] then Err(GradeMissing(key))
      else if classInfo !in list.value then Err(ClassMissing(classInfo))
      else Ok(Scope(key + "학년 " + classNumber + "반", [classInfo]))
    case Unreadable => Err(BadFormat)
  }

  /** parseTargetScope. */
  function ParseTargetScope(input: string, m: ClassMap): Result<Scope, string> {
    ParseNormalized(Normalize(input), m)
  }

  /** A class list found under a grade key belongs to the map's classes. */
  lemma LookupInFlat(m: ClassMap, key: string)
    requires Lookup(m, key).Some?
    ensures forall c :: c in Lookup(m, key).value ==> c in Flat(m)
  {
    var i :| 0 <= i < |m| && m[i].key == key && m[i].classes == Lookup(m, key).value;
  }

  /** A target that is read names at least one class, and only classes of the map. */
  lemma ScopeWithinMap(input: string, m: ClassMap)
    ensures var r := ParseTargetScope(input, m);
      r.Ok? ==> r.value.classes != [] && forall c :: c in r.value.classes ==> c in Flat(m)
  {
    var n := Normalize(input);
    var f := FormOf(n);
    if f.GradeForm? || f.ClassForm? {
      if Lookup(m, f.gradeKey).Some? {
        LookupInFlat(m, f.gradeKey);
      }
    }
  }

  /** White space anywhere in the target text is ignored. */
  lemma SpacesIgnored(input: string, m: ClassMap)
    ensures ParseTargetScope(input, m) == ParseTargetScope(RemoveSpaces(input), m)
  {
    RemoveSpacesNone(RemoveSpaces(input));
  }

  /** Two runs of digits "G-C" are read as the class form of G and C. */
  lemma ClassWordDigits(g: string, c: string)
    requires g != [] && c != [] && AllDigits(g) && AllDigits(c)
    ensures FormOf(g + "-" + c) == ClassForm(g, c)
  {
    var n := g + "-" + c;
    assert '-' !in g && '-' !in c;
    SplitAround(g, c, '-');
    assert g + ['-'] + c == n;
    assert n[|n| - 1] == c[|c| - 1];
    assert !GradeWord(n) by {
      if |n| > 2 {
        assert n[|n| - 2..][1] == n[|n| - 1];
      }
    }
  }

  /** Digits followed by "학년" are read as the grade form of those digits. */
  lemma GradeWordDigits(g: string)
    requires g != [] && AllDigits(g)
    ensures FormOf(g + "학년") == GradeForm(g)
  {
    var n := g + "학년";
    assert n[|n| - 2..] == "학년";
    assert n[..|n| - 2] == g;
  }

  /** The classes of the fixed map: 3-1..3-3, 4-1..4-3 and 6-1..6-7. */
  predicate FallbackHas(g: char, c: char) {
    ((g == '3' || g == '4') && '1' <= c <= '3') || (g == '6' && '1' <= c <= '7')
  }

  /** The class list the fixed map holds for a one-digit grade key. */
  lemma FallbackLookup(g: char)
    requires IsDigit(g)
    ensures g == '3' ==> Lookup(FallbackMap, [g]) == Some(FallbackMap[0].classes)
    ensures g == '4' ==> Lookup(FallbackMap, [g]) == Some(FallbackMap[1].classes)
    ensures g == '6' ==> Lookup(FallbackMap, [g]) == Some(FallbackMap[2].classes)
    ensures g != '3' && g != '4' && g != '6' ==> Lookup(FallbackMap, [g]).None?
  {
    assert FallbackMap[0].key == "3" && FallbackMap[1].key == "4" && FallbackMap[2].key == "6";
    if g != '3' && g != '4' && g != '6' {
      forall i | 0 <= i < |FallbackMap| ensures FallbackMap[i].key != [g] {
        assert FallbackMap[i].key[0] != g;
      }
    }
  }

  /** The fixed map lists `n` under the grade key `g`. */
  predicate FallbackLookupHas(g: char, n: string) {
    Lookup(FallbackMap, [g]).Some? && n in Lookup(FallbackMap, [g]).value
  }

  /** "G-C" is one of the fixed map's class lists exactly when the fixed map has that class. */
  lemma FallbackMember(g: char, c: char)
    requires IsDigit(g) && IsDigit(c)
    ensures FallbackLookupHas(g, [g, '-', c]) <==> FallbackHas(g, c)
  {
    var n := [g, '-', c];
    FallbackLookup(g);
    if Lookup(FallbackMap, [g]).Some? {
      var list := Lookup(FallbackMap, [g]).value;
      if n in list {
        var i :| 0 <= i < |list| && list[i] == n;
        assert list[i][0] == g && list[i][2] == c;
      }
      if FallbackHas(g, c) {
        var k := (c as int) - ('1' as int);
        assert list[k] == n;
      }
    }
  }

  /** With no roster, a one-digit "G-C" target names that single class exactly when the fixed
      map has it; otherwise a grade without classes is reported as missing, and a class the
      grade does not have is reported as missing. */
  lemma FallbackClassTarget(g: char, c: char)
    requires IsDigit(g) && IsDigit(c)
    ensures var r := ParseTargetScope([g, '-', c], FallbackMap);
      && (r.Ok? <==> FallbackHas(g, c))
      && (r.Ok? ==> r.value == Scope([g] + "학년 " + [c] + "반", [[g, '-', c]]))
      && (r.Err? && g != '3' && g != '4' && g != '6' ==> r.error == GradeMissing([g]))
      && (r.Err? && (g == '3' || g == '4' || g == '6') ==> r.error == ClassMissing([g, '-', c]))
  {
    var n := [g, '-', c];
    assert [g] + "-" + [c] == n;
    ClassWordDigits([g], [c]);
    DigitNotSpace(g);
    DigitNotSpace(c);
    RemoveSpacesNone(n);
    FallbackLookup(g);
    FallbackMember(g, c);
  }

  /** With no roster, a one-digit "G학년" target names the fixed classes of grade G exactly when
      G is 3, 4 or 6, and reports the grade as missing otherwise. */
  lemma FallbackGradeTarget(g: char)
    requires IsDigit(g)
    ensures var r := ParseTargetScope([g] + "학년", FallbackMap);
      && (r.Ok? <==> g == '3' || g == '4' || g == '6')
      && (r.Ok? ==> r.value == Scope([g] + "학년", Lookup(FallbackMap, [g]).value))
      && (r.Err? ==> r.error == GradeMissing([g]))
  {
    GradeWordDigits([g]);
    DigitNotSpace(g);
    var n := [g] + "학년";
    RemoveSpacesNone(n);
    FallbackLookup(g);
  }

  /** Which button saved: the guide text, the additional text, or both (`'통합'`). */
  datatype SaveKind = ContentOnly | AdditionalOnly | Combined

  /** What the save reports. */
  datatype SaveStatus = Idle | ScopeError(message: string) | AllSaved(caption: string, classes: seq<string>)
                      | Partial(caption: string, saved: nat, total: nat)

  /** A class counts as saved when its update succeeded or, after a failed update, its
      creation did. */
  predicate SavedClass(updated: string -> bool, created: string -> bool, c: string) {
    updated(c) || created(c)
  }

  /** The number of classes saved, counted as the loop goes. */
  function SavedCount(classes: seq<string>, updated: string -> bool, created: string -> bool): nat {
    if classes == [] then 0
    else
      var n := |classes| - 1;
      SavedCount(classes[..n], updated, created) + (if SavedClass(updated, created, classes[n]) then 1 else 0)
  }

  /** The count never exceeds the classes, and reaches them exactly when every class was saved. */
  lemma {:induction false} SavedCountSpec(classes: seq<string>, updated: string -> bool, created: string -> bool)
    ensures SavedCount(classes, updated, created) <= |classes|
    ensures SavedCount(classes, updated, created) == |classes| <==> forall c :: c in classes ==> SavedClass(updated, created, c)
  {
    if classes != [] {
      var n := |classes| - 1;
      SavedCountSpec(classes[..n], updated, created);
      assert forall c :: c in classes <==> c in classes[..n] || c == classes[n];
    }
  }

  /** The save loop: each class is written in turn, an update first and a creation when the
      update failed, and the classes saved are counted. */
  method SaveClasses(classes: seq<string>, updated: string -> bool, created: string -> bool)
    returns (successCount: nat)
    ensures successCount == SavedCount(classes, updated, created)
    ensures successCount == |classes| <==> forall c :: c in classes ==> SavedClass(updated, created, c)
  {
    successCount := 0;
    for i := 0 to |classes|
      invariant successCount == SavedCount(classes[..i], updated, created)
    {
      assert classes[..i + 1][..i] == classes[..i];
      if updated(classes[i]) {
        successCount := successCount + 1;
      } else if created(classes[i]) {
        successCount := successCount + 1;
      }
    }
    assert classes[..|classes|] == classes;
    SavedCountSpec(classes, updated, created);
  }

  /** The input fields of the tab and the message it shows. */
  class GuideForm {
    var targetInput: string
    var content: string
    var additionalContent: string
    var status: SaveStatus

    constructor ()
      ensures targetInput == "" && content == "" && additionalContent == "" && status == Idle
    {
      targetInput, content, additionalContent, status := "", "", "", Idle;
    }

    /** handleSave: the target is read first and an unreadable one is reported; otherwise each
        class is written in turn (an update, then a creation when the update failed), the saved
        classes are counted, and only a combined save that reached every class clears the
        inputs. */
    method HandleSave(kind: SaveKind, m: ClassMap, updated: string -> bool, created: string -> bool)
      returns (successCount: nat)
      modifies this
      ensures var scope := ParseTargetScope(old(targetInput), m);
        && (scope.Err? ==> status == ScopeError(scope.error) && successCount == 0)
        && (scope.Ok? ==> successCount == SavedCount(scope.value.classes, updated, created))
        && (scope.Ok? ==> successCount <= |scope.value.classes|)
        && (status.AllSaved? <==> scope.Ok? && forall c :: c in scope.value.classes ==> SavedClass(updated, created, c))
        && (status.Partial? ==> scope.Ok? && status.saved == successCount < status.total == |scope.value.classes|)
      ensures status.AllSaved? && kind == Combined ==> targetInput == "" && content == "" && additionalContent == ""
      ensures !(status.AllSaved? && kind == Combined) ==>
        targetInput == old(targetInput) && content == old(content) && additionalContent == old(additionalContent)
    {
      successCount := SaveScope(ParseTargetScope(targetInput, m), kind, updated, created);
    }

    /** The rest of handleSave once the target has been read. */
    method SaveScope(scope: Result<Scope, string>, kind: SaveKind, updated: string -> bool, created: string -> bool)
      returns (successCount: nat)
      modifies this
      ensures scope.Err? ==> status == ScopeError(scope.error) && successCount == 0
      ensures scope.Ok? ==> successCount == SavedCount(scope.value.classes, updated, created)
      ensures scope.Ok? ==> successCount <= |scope.value.classes|
      ensures status.AllSaved? <==> scope.Ok? && forall c :: c in scope.value.classes ==> SavedClass(updated, created, c)
      ensures status.Partial? ==> scope.Ok? && status.saved == successCount < status.total == |scope.value.classes|
      ensures status.AllSaved? && kind == Combined ==> targetInput == "" && content == "" && additionalContent == ""
      ensures !(status.AllSaved? && kind == Combined) ==>
        targetInput == old(targetInput) && content == old(content) && additionalContent == old(additionalContent)
    {
      if scope.Err? {
        status := ScopeError(scope.error);
        return 0;
      }
      var classes := scope.value.classes;
      successCount := SaveClasses(classes, updated, created);
      SavedCountSpec(classes, updated, created);
      if successCount == |classes| {
        status := AllSaved(scope.value.caption, classes);
        if kind == Combined {
          targetInput, content, additionalContent := "", "", "";
        }
      } else {
        status := Partial(scope.value.caption, successCount, |classes|);
      }
    }
  }
}
