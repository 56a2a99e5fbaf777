/** Per-class help settings with a priority cascade: the class's own row, then the grade-wide
    row (class 0), then the global row (grade 0, class 0), then fixed defaults
    (src/services/helpSettingsService.js). */
module HelpSettings {
  import opened Wrappers
  import opened Text
  import opened Database
  import Sorting
  import Students

  datatype Limits = Limits(cooldownSeconds: int, dailyLimit: int)

  /** DEFAULT_SETTINGS: ten minutes, three a day. */
  const DefaultSettings := Limits(600, 3)

  /** A row of `help_settings`; (grade, class_number) is the upsert key. */
  datatype SettingRow = SettingRow(grade: int, classNumber: int, limits: Limits)

  /** Which level of the cascade a setting came from; `Default` when none did. */
  datatype SettingType = Individual | GradeWide | Global | Default

  datatype FoundSetting = FoundSetting(limits: Limits, kind: SettingType)

  // ---------------------------------------------------------------------------------------
  // Resolution over the table, keyed as the upsert keys it.

  /** The levels below the class's own row. */
  function Fallback(table: map<(int, int), Limits>, grade: int, classNumber: int): Option<FoundSetting> {
    if (grade, 0) in table then Some(FoundSetting(table[(grade, 0)], GradeWide))
    else if (0, 0) in table then Some(FoundSetting(table[(0, 0)], Global))
    else None
  }

  /** The setting that applies to a class, with the level it came from. */
  function Resolve(table: map<(int, int), Limits>, grade: int, classNumber: int): (r: Option<FoundSetting>)
    ensures r.None? <==> (grade, classNumber) !in table && (grade, 0) !in table && (0, 0) !in table
    ensures r.Some? && r.value.kind == Individual <==> (grade, classNumber) in table
  {
    if (grade, classNumber) in table then Some(FoundSetting(table[(grade, classNumber)], Individual))
    else Fallback(table, grade, classNumber)
  }

  /** The limits of a resolution, or the defaults. */
  function LimitsOr(found: Option<FoundSetting>): Limits {
    match found
    case Some(f) => f.limits
    case None => DefaultSettings
  }

  /** getHelpSettings: each level is one `.single()` query; a level whose query fails or finds
      nothing falls through to the next, and the defaults come last. */
  function GetHelpSettings(table: map<(int, int), Limits>, grade: int, classNumber: int,
                           classQueryOk: bool, gradeQueryOk: bool, globalQueryOk: bool): Limits
  {
    if classQueryOk && (grade, classNumber) in table then table[(grade, classNumber)]
    else if gradeQueryOk && (grade, 0) in table then table[(grade, 0)]
    else if globalQueryOk && (0, 0) in table then table[(0, 0)]
    else DefaultSettings
  }

  /** When the queries succeed, getHelpSettings gives the limits of the resolved level, or the
      defaults when no level has a row. */
  lemma GetHelpSettingsResolves(table: map<(int, int), Limits>, grade: int, classNumber: int)
    ensures GetHelpSettings(table, grade, classNumber, true, true, true) == LimitsOr(Resolve(table, grade, classNumber))
    ensures Resolve(table, grade, classNumber).None? ==> GetHelpSettings(table, grade, classNumber, true, true, true) == Limits(600, 3)
  {
  }

  /** With every query failing, the defaults. */
  lemma GetHelpSettingsOnErrors(table: map<(int, int), Limits>, grade: int, classNumber: int)
    ensures GetHelpSettings(table, grade, classNumber, false, false, false) == DefaultSettings
  {
  }

  /** getHelpSettingsByStudentId: the student's grade and class come from the roster; an unknown
      student or a failed lookup gives the defaults. */
  function GetHelpSettingsByStudentId(students: seq<Student>, table: map<(int, int), Limits>, id: string,
                                      studentQueryOk: bool, classQueryOk: bool, gradeQueryOk: bool,
                                      globalQueryOk: bool): Limits
  {
    match FindStudent(students, id)
    case Some(s) =>
      if studentQueryOk then GetHelpSettings(table, s.grade, s.classNumber, classQueryOk, gradeQueryOk, globalQueryOk)
      else DefaultSettings
    case None => DefaultSettings
  }

  /** An unknown student gets the defaults; a known one the settings of their class. */
  lemma ByStudentIdSpec(students: seq<Student>, table: map<(int, int), Limits>, id: string)
    ensures (forall i :: 0 <= i < |students| ==> students[i].id != id) ==>
              GetHelpSettingsByStudentId(students, table, id, true, true, true, true) == DefaultSettings
    ensures forall s :: s in students && s.id == id && UniqueIds(students) ==>
              GetHelpSettingsByStudentId(students, table, id, true, true, true, true)
              == LimitsOr(Resolve(table, s.grade, s.classNumber))
  {
    forall s | s in students && s.id == id && UniqueIds(students)
      ensures GetHelpSettingsByStudentId(students, table, id, true, true, true, true)
              == LimitsOr(Resolve(table, s.grade, s.classNumber))
    {
      var f := FindStudent(students, id).value;
      var i :| 0 <= i < |students| && students[i] == s;
      var j :| 0 <= j < |students| && students[j] == f;
      assert i == j;
    }
  }

  // ---------------------------------------------------------------------------------------
  // Resolution over a fetched list of rows (findSettingForClass).

  /** `settings.find(s => s.grade === grade && s.class_number === classNumber)`. */
  function FindRow(settings: seq<SettingRow>, grade: int, classNumber: int): (r: Option<SettingRow>)
    ensures r.None? <==> forall i :: 0 <= i < |settings| ==> (settings[i].grade, settings[i].classNumber) != (grade, classNumber)
    ensures r.Some? ==> r.value in settings && r.value.grade == grade && r.value.classNumber == classNumber
  {
    if settings == [] then None
    else if settings[0].grade == grade && settings[0].classNumber == classNumber then Some(settings[0])
    else
      var r := FindRow(settings[1..], grade, classNumber);
      assert forall i :: 0 < i < |settings| ==> settings[i] == settings[1..][i - 1];
      r
  }

  /** findSettingForClass. */
  function FindSettingForClass(settings: seq<SettingRow>, grade: int, classNumber: int): Option<FoundSetting> {
    match FindRow(settings, grade, classNumber)
    case Some(row) => Some(FoundSetting(row.limits, Individual))
    case None =>
      match FindRow(settings, grade, 0)
      case Some(row) => Some(FoundSetting(row.limits, GradeWide))
      case None =>
        match FindRow(settings, 0, 0)
        case Some(row) => Some(FoundSetting(row.limits, Global))
        case None => None
  }

  /** The rows list the table: one row per key, each with the table's limits, every key
      listed. */
  predicate Lists(settings: seq<SettingRow>, table: map<(int, int), Limits>) {
    (forall i, j :: 0 <= i < j < |settings| ==>
       (settings[i].grade, settings[i].classNumber) != (settings[j].grade, settings[j].classNumber))
    && (forall i :: 0 <= i < |settings| ==>
          (settings[i].grade, settings[i].classNumber) in table
          && table[(settings[i].grade, settings[i].classNumber)] == settings[i].limits)
    && (forall k :: k in table ==> exists i :: 0 <= i < |settings| && (settings[i].grade, settings[i].classNumber) == k)
  }

  lemma FindRowLists(settings: seq<SettingRow>, table: map<(int, int), Limits>, grade: int, classNumber: int)
    requires Lists(settings, table)
    ensures FindRow(settings, grade, classNumber).Some? <==> (grade, classNumber) in table
    ensures FindRow(settings, grade, classNumber).Some? ==> FindRow(settings, grade, classNumber).value.limits == table[(grade, classNumber)]
  {
    var r := FindRow(settings, grade, classNumber);
    if r.Some? {
      var i :| 0 <= i < |settings| && settings[i] == r.value;
    }
  }

  /** On a listing of the table, findSettingForClass picks what the table resolves to: the
      class's own row ('individual'), else the grade row ('grade'), else the global row
      ('global'), else nothing. */
  lemma FindSettingForClassResolves(settings: seq<SettingRow>, table: map<(int, int), Limits>, grade: int, classNumber: int)
    requires Lists(settings, table)
    ensures FindSettingForClass(settings, grade, classNumber) == Resolve(table, grade, classNumber)
  {
    FindRowLists(settings, table, grade, classNumber);
    FindRowLists(settings, table, grade, 0);
    FindRowLists(settings, table, 0, 0);
  }

  /** The three rows findSettingForClass can pick are the same after dropping rows it can never
      pick. */
  predicate Relevant(row: SettingRow, grade: int, classNumber: int) {
    (row.grade == grade && row.classNumber == classNumber) || (row.grade == grade && row.classNumber == 0)
    || (row.grade == 0 && row.classNumber == 0)
  }

  lemma {:induction false} FindRowFiltered(settings: seq<SettingRow>, p: SettingRow -> bool, g: int, c: int)
    requires forall row: SettingRow :: row.grade == g && row.classNumber == c ==> p(row)
    ensures FindRow(Sorting.Filter(settings, p), g, c) == FindRow(settings, g, c)
  {
    if settings != [] {
      var tail := settings[1..];
      FindRowFiltered(tail, p, g, c);
      var f := Sorting.Filter(settings, p);
      if p(settings[0]) {
        assert f == [settings[0]] + Sorting.Filter(tail, p);
        assert f[1..] == Sorting.Filter(tail, p);
      } else {
        assert f == Sorting.Filter(tail, p);
      }
    }
  }

  /** A query that keeps at least the rows findSettingForClass can pick for a class (the
      `.or(...)` filters of the grade and class listings) does not change what it picks. */
  lemma FindSettingForClassFiltered(settings: seq<SettingRow>, p: SettingRow -> bool, grade: int, classNumber: int)
    requires forall row: SettingRow :: Relevant(row, grade, classNumber) ==> p(row)
    ensures FindSettingForClass(Sorting.Filter(settings, p), grade, classNumber) == FindSettingForClass(settings, grade, classNumber)
  {
    FindRowFiltered(settings, p, grade, classNumber);
    FindRowFiltered(settings, p, grade, 0);
    FindRowFiltered(settings, p, 0, 0);
  }

  // ---------------------------------------------------------------------------------------
  // The listings for the administrator.

  datatype Scope = AllClasses | GradeScope(grade: int) | ClassScope(grade: int, classNumber: int)

  predicate IsDigitRun(s: string) {
    s != [] && AllDigits(s)
  }

  /** `^(\d+)학년$` on trimmed text: the grade, or None when the text does not have that form. */
  function GradeForm(t: string): Option<nat> {
    if |t| >= 2 && t[|t| - 2..] == "학년" && IsDigitRun(t[..|t| - 2]) then Some(DigitsValue(t[..|t| - 2])) else None
  }

  /** `^(\d+)-(\d+)$` on trimmed text: the grade and class, or None. */
  function ClassForm(t: string): Option<(nat, nat)> {
    var parts := Split(t, '-');
    if |parts| == 2 && IsDigitRun(parts[0]) && IsDigitRun(parts[1]) then Some((DigitsValue(parts[0]), DigitsValue(parts[1]))) else None
  }

  /** parseScope: "전체"; `^(\d+)학년$`; `^(\d+)-(\d+)$`; everything else is "all". The digit runs
      are read with `parseInt`, which on a run of digits is its value. */
  function ParseScope(scope: string): Scope {
    var t := Trim(scope);
    if t == "전체" then AllClasses
    else if GradeForm(t).Some? then GradeScope(GradeForm(t).value)
    else if ClassForm(t).Some? then ClassScope(ClassForm(t).value.0, ClassForm(t).value.1)
    else AllClasses
  }

  /** The text an administrator types for a scope. */
  function ScopeText(s: Scope): string
    requires s.GradeScope? ==> s.grade >= 0
    requires s.ClassScope? ==> s.grade >= 0 && s.classNumber >= 0
  {
    match s
    case AllClasses => "전체"
    case GradeScope(g) => NatToString(g) + "학년"
    case ClassScope(g, c) => NatToString(g) + "-" + NatToString(c)
  }

  lemma NoSpaceInNumber(n: nat)
    ensures forall i :: 0 <= i < |NatToString(n)| ==> IsDigit(NatToString(n)[i]) && !IsSpace(NatToString(n)[i])
  {
  }

  /** parseScope reads back every scope from its text, surrounding white space ignored. */
  lemma ParseScopeRoundTrip(s: Scope, pad: string)
    requires s.GradeScope? ==> s.grade >= 0
    requires s.ClassScope? ==> s.grade >= 0 && s.classNumber >= 0
    requires IsBlank(pad)
    ensures ParseScope(pad + ScopeText(s) + pad) == s
  {
    match s
    case AllClasses =>
      TrimPadded(pad, "전체", pad);
    case GradeScope(g) =>
      assert pad + ScopeText(s) + pad == pad + NatToString(g) + "학년" + pad;
      ParseGradeScope(g, pad);
    case ClassScope(g, c) =>
      assert pad + ScopeText(s) + pad == pad + NatToString(g) + "-" + NatToString(c) + pad;
      ParseClassScope(g, c, pad);
  }

  lemma GradeFormOf(g: nat)
    ensures GradeForm(NatToString(g) + "학년") == Some(g)
  {
    var a := NatToString(g);
    var text := a + "학년";
    NatToStringRoundTrip(g);
    assert text[..|text| - 2] == a;
    assert text[|text| - 2..] == "학년";
  }

  lemma ParseGradeScope(g: nat, pad: string)
    requires IsBlank(pad)
    ensures ParseScope(pad + NatToString(g) + "학년" + pad) == GradeScope(g)
  {
    var a := NatToString(g);
    var text := a + "학년";
    NoSpaceInNumber(g);
    assert pad + text + pad == pad + a + "학년" + pad;
    TrimPadded(pad, text, pad);
    GradeFormOf(g);
    assert text[|text| - 1] == '년';
  }

  lemma ClassFormOf(g: nat, c: nat)
    ensures ClassForm(NatToString(g) + "-" + NatToString(c)) == Some((g, c))
  {
    var a := NatToString(g);
    var b := NatToString(c);
    NoSpaceInNumber(g);
    NoSpaceInNumber(c);
    NatToStringRoundTrip(g);
    NatToStringRoundTrip(c);
    assert forall i :: 0 <= i < |a| ==> a[i] != '-';
    assert forall i :: 0 <= i < |b| ==> b[i] != '-';
    SplitAround(a, b, '-');
    assert a + "-" + b == a + ['-'] + b;
  }

  /** A class text ends in a digit, so it is neither "전체" nor of the grade form. */
  lemma ClassTextNotGrade(g: nat, c: nat)
    ensures var text := NatToString(g) + "-" + NatToString(c);
      text != "전체" && GradeForm(text).None?
  {
    var b := NatToString(c);
    var text := NatToString(g) + "-" + b;
    NoSpaceInNumber(c);
    assert text[|text| - 1] == b[|b| - 1];
    assert IsDigit(text[|text| - 1]);
  }

  lemma ParseClassScope(g: nat, c: nat, pad: string)
    requires IsBlank(pad)
    ensures ParseScope(pad + NatToString(g) + "-" + NatToString(c) + pad) == ClassScope(g, c)
  {
    var a := NatToString(g);
    var b := NatToString(c);
    var text := a + "-" + b;
    NoSpaceInNumber(g);
    NoSpaceInNumber(c);
    assert text[|text| - 1] == b[|b| - 1];
    assert pad + text + pad == pad + a + "-" + b + pad;
    TrimPadded(pad, text, pad);
    ClassTextNotGrade(g, c);
    ClassFormOf(g, c);
  }

  /** One line of a listing. */
  datatype ClassSetting = ClassSetting(grade: int, classNumber: int, limits: Limits, kind: SettingType)

  /** The line of a class: its found setting, or the defaults tagged 'default'. */
  function LineFor(settings: seq<SettingRow>, grade: int, classNumber: int): (r: ClassSetting)
    ensures r.grade == grade && r.classNumber == classNumber
    ensures r.kind == Default <==> FindSettingForClass(settings, grade, classNumber).None?
    ensures r.limits == LimitsOr(FindSettingForClass(settings, grade, classNumber))
  {
    match FindSettingForClass(settings, grade, classNumber)
    case Some(f) => ClassSetting(grade, classNumber, f.limits, f.kind)
    case None => ClassSetting(grade, classNumber, DefaultSettings, Default)
  }

  predicate ByGradeThenClass(a: ClassSetting, b: ClassSetting) {
    a.grade < b.grade || (a.grade == b.grade && a.classNumber <= b.classNumber)
  }

  predicate ByClass(a: ClassSetting, b: ClassSetting) {
    a.classNumber <= b.classNumber
  }

  /** The distinct (grade, class) pairs of the roster, in order of first appearance (the keys of
      the `Map` built from `${grade}-${class_number}`). */
  function RosterClasses(students: seq<Student>): seq<(int, int)> {
    Sorting.Dedup(Sorting.MapSeq(students, (s: Student) => (s.grade, s.classNumber)))
  }

  /** getAllClassesWithSettings: a failed roster query gives no lines; a failed settings query
      leaves every class on the defaults. */
  function AllClassesWithSettings(students: seq<Student>, settings: seq<SettingRow>,
                                  rosterQueryOk: bool, settingsQueryOk: bool): seq<ClassSetting>
  {
    if !rosterQueryOk then []
    else
      var rows := if settingsQueryOk then settings else [];
      Lines(RosterClasses(students), rows, ByGradeThenClass)
  }

  /** getGradeClassesWithSettings: only the grade's roster rows and only settings of that grade
      or of grade 0. */
  function GradeClassesWithSettings(students: seq<Student>, settings: seq<SettingRow>, grade: int,
                                    rosterQueryOk: bool, settingsQueryOk: bool): seq<ClassSetting>
  {
    if !rosterQueryOk then []
    else
      var roster := Sorting.Filter(students, (s: Student) => s.grade == grade);
      var rows := if settingsQueryOk then Sorting.Filter(settings, (r: SettingRow) => r.grade == grade || r.grade == 0) else [];
      Lines(RosterClasses(roster), rows, ByClass)
  }

  /** getClassWithSettings: the one class, whether or not it has students. */
  function ClassWithSettings(settings: seq<SettingRow>, grade: int, classNumber: int, settingsQueryOk: bool): seq<ClassSetting> {
    var rows := if settingsQueryOk then Sorting.Filter(settings, (r: SettingRow) => Relevant(r, grade, classNumber)) else [];
    [LineFor(rows, grade, classNumber)]
  }

  /** getSettingsByScope. */
  function GetSettingsByScope(scope: string, students: seq<Student>, settings: seq<SettingRow>,
                              rosterQueryOk: bool, settingsQueryOk: bool): seq<ClassSetting>
  {
    match ParseScope(scope)
    case AllClasses => AllClassesWithSettings(students, settings, rosterQueryOk, settingsQueryOk)
    case GradeScope(g) => GradeClassesWithSettings(students, settings, g, rosterQueryOk, settingsQueryOk)
    case ClassScope(g, c) => ClassWithSettings(settings, g, c, settingsQueryOk)
  }

  lemma ListingOrders()
    ensures Sorting.Total(ByGradeThenClass) && Sorting.Transitive(ByGradeThenClass)
    ensures Sorting.Total(ByClass) && Sorting.Transitive(ByClass)
  {
  }

  lemma {:induction false} MapSeqNoDupKeys(keys: seq<(int, int)>, f: ((int, int)) -> ClassSetting)
    requires Sorting.NoDup(keys)
    requires forall k :: f(k).grade == k.0 && f(k).classNumber == k.1
    ensures Sorting.NoDup(Sorting.MapSeq(keys, f))
  {
    var r := Sorting.MapSeq(keys, f);
    forall i, j | 0 <= i < j < |r| ensures r[i] != r[j] {
      assert keys[i] != keys[j];
      assert r[i].grade == keys[i].0 && r[i].classNumber == keys[i].1;
      assert r[j].grade == keys[j].0 && r[j].classNumber == keys[j].1;
    }
  }

  /** The lines of the given classes, one each, sorted by `order`. */
  function Lines(keys: seq<(int, int)>, rows: seq<SettingRow>, order: (ClassSetting, ClassSetting) -> bool): seq<ClassSetting> {
    Sorting.Sort(Sorting.MapSeq(keys, (k: (int, int)) => LineFor(rows, k.0, k.1)), order)
  }

  /** The roster's classes: no class twice, every student's class, and only students' classes. */
  lemma RosterClassesSpec(students: seq<Student>)
    ensures Sorting.NoDup(RosterClasses(students))
    ensures forall s :: s in students ==> (s.grade, s.classNumber) in RosterClasses(students)
    ensures forall k :: k in RosterClasses(students) ==> exists s :: s in students && (s.grade, s.classNumber) == k
  {
    var pairs := Sorting.MapSeq(students, (s: Student) => (s.grade, s.classNumber));
    forall s | s in students ensures (s.grade, s.classNumber) in RosterClasses(students) {
      var a :| 0 <= a < |students| && students[a] == s;
      assert pairs[a] == (s.grade, s.classNumber);
    }
    forall k | k in RosterClasses(students) ensures exists s :: s in students && (s.grade, s.classNumber) == k {
      assert k in pairs;
      var a :| 0 <= a < |pairs| && pairs[a] == k;
      assert students[a] in students;
    }
  }

  /** Lines of distinct classes: no line twice, sorted, a line for every class and nothing else. */
  lemma LinesSpec(keys: seq<(int, int)>, rows: seq<SettingRow>, order: (ClassSetting, ClassSetting) -> bool)
    requires Sorting.NoDup(keys)
    requires Sorting.Total(order) && Sorting.Transitive(order)
    ensures var r := Lines(keys, rows, order);
      && Sorting.NoDup(r)
      && Sorting.SortedBy(r, order)
      && (forall k :: k in keys ==> LineFor(rows, k.0, k.1) in r)
      && (forall x :: x in r ==> (x.grade, x.classNumber) in keys && x == LineFor(rows, x.grade, x.classNumber))
  {
    var f := (k: (int, int)) => LineFor(rows, k.0, k.1);
    var lines := Sorting.MapSeq(keys, f);
    var r := Lines(keys, rows, order);
    MapSeqNoDupKeys(keys, f);
    Sorting.PermutationNoDup(lines, r);
    Sorting.SortSorted(lines, order);
    forall k | k in keys ensures LineFor(rows, k.0, k.1) in r {
      var b :| 0 <= b < |keys| && keys[b] == k;
      assert lines[b] in multiset(r);
    }
    forall x | x in r ensures (x.grade, x.classNumber) in keys && x == LineFor(rows, x.grade, x.classNumber) {
      assert x in multiset(lines);
      var b :| 0 <= b < |lines| && lines[b] == x;
      assert keys[b] == (x.grade, x.classNumber);
    }
  }

  /** The all-classes listing: one line per class that has students (no class twice), sorted by
      grade then class, each line the class's found setting or the defaults. */
  lemma AllClassesSpec(students: seq<Student>, settings: seq<SettingRow>)
    ensures var r := AllClassesWithSettings(students, settings, true, true);
      && Sorting.NoDup(r)
      && Sorting.SortedBy(r, ByGradeThenClass)
      && (forall x :: x in r ==> x == LineFor(settings, x.grade, x.classNumber))
      && (forall s :: s in students ==> LineFor(settings, s.grade, s.classNumber) in r)
      && (forall x :: x in r ==> exists s :: s in students && s.grade == x.grade && s.classNumber == x.classNumber)
  {
    var keys := RosterClasses(students);
    var r := AllClassesWithSettings(students, settings, true, true);
    assert r == Lines(keys, settings, ByGradeThenClass);
    RosterClassesSpec(students);
    ListingOrders();
    LinesSpec(keys, settings, ByGradeThenClass);
  }

  /** The grade listing: one line per class of that grade that has students, sorted by class,
      each line what findSettingForClass picks from the whole table. */
  lemma GradeClassesSpec(students: seq<Student>, settings: seq<SettingRow>, grade: int)
    ensures var r := GradeClassesWithSettings(students, settings, grade, true, true);
      && Sorting.NoDup(r)
      && Sorting.SortedBy(r, ByClass)
      && (forall i :: 0 <= i < |r| ==> r[i].grade == grade && r[i] == LineFor(settings, grade, r[i].classNumber))
      && (forall s :: s in students && s.grade == grade ==> exists i :: 0 <= i < |r| && r[i].classNumber == s.classNumber)
  {
    var roster := Sorting.Filter(students, (s: Student) => s.grade == grade);
    var p := (row: SettingRow) => row.grade == grade || row.grade == 0;
    var rows := Sorting.Filter(settings, p);
    var keys := RosterClasses(roster);
    var r := GradeClassesWithSettings(students, settings, grade, true, true);
    RosterClassesSpec(roster);
    ListingOrders();
    LinesSpec(keys, rows, ByClass);
    Sorting.FilterMembers(students, (s: Student) => s.grade == grade);
    forall i | 0 <= i < |r| ensures r[i].grade == grade && r[i] == LineFor(settings, grade, r[i].classNumber) {
      assert r[i] in r;
      assert (r[i].grade, r[i].classNumber) in keys;
      FindSettingForClassFiltered(settings, p, grade, r[i].classNumber);
    }
    forall s | s in students && s.grade == grade
      ensures exists i :: 0 <= i < |r| && r[i].classNumber == s.classNumber
    {
      assert s in roster;
      assert LineFor(rows, s.grade, s.classNumber) in r;
    }
  }

  /** The single-class listing is the class's line computed from the whole table. */
  lemma ClassWithSettingsSpec(settings: seq<SettingRow>, grade: int, classNumber: int)
    ensures ClassWithSettings(settings, grade, classNumber, true) == [LineFor(settings, grade, classNumber)]
  {
    FindSettingForClassFiltered(settings, (r: SettingRow) => Relevant(r, grade, classNumber), grade, classNumber);
  }

  // ---------------------------------------------------------------------------------------
  // Changing the table.

  const GlobalDeleteError := "전체 설정은 삭제할 수 없습니다."

  class HelpSettingsTable {
    var rows: map<(int, int), Limits>

    constructor ()
      ensures rows == map[]
    {
      rows := map[];
    }

    /** saveClassSetting: an upsert on (grade, class_number). */
    method SaveClassSetting(grade: int, classNumber: int, limits: Limits, upsertOk: bool) returns (ok: bool)
      modifies this
      ensures ok == upsertOk
      ensures rows == if upsertOk then old(rows)[(grade, classNumber) := limits] else old(rows)
    {
      if upsertOk {
        rows := rows[(grade, classNumber) := limits];
      }
      ok := upsertOk;
    }

    /** saveBatchSettings: one upsert of every listed class with the same limits. */
    method SaveBatchSettings(classes: seq<(int, int)>, limits: Limits, upsertOk: bool) returns (r: Result<nat, string>)
      modifies this
      ensures upsertOk ==> r == Ok(|classes|) && rows == Saved(old(rows), classes, limits)
      ensures !upsertOk ==> r.Err? && rows == old(rows)
    {
      if !upsertOk {
        return Err("upsert failed");
      }
      rows := Saved(rows, classes, limits);
      r := Ok(|classes|);
    }

    /** deleteClassSetting: the global row cannot be deleted. */
    method DeleteClassSetting(grade: int, classNumber: int, deleteOk: bool) returns (r: Result<(), string>)
      modifies this
      ensures grade == 0 && classNumber == 0 ==> r == Err(GlobalDeleteError) && rows == old(rows)
      ensures !(grade == 0 && classNumber == 0) ==>
        (r.Ok? <==> deleteOk) && rows == if deleteOk then old(rows) - {(grade, classNumber)} else old(rows)
    {
      if grade == 0 && classNumber == 0 {
        return Err(GlobalDeleteError);
      }
      if !deleteOk {
        return Err("delete failed");
      }
      rows := rows - {(grade, classNumber)};
      r := Ok(());
    }
  }

  /** The table after upserting every listed class with the same limits. */
  function Saved(table: map<(int, int), Limits>, classes: seq<(int, int)>, limits: Limits): (r: map<(int, int), Limits>)
    ensures forall k :: k in classes ==> k in r && r[k] == limits
    ensures forall k :: k !in classes ==> (k in r <==> k in table) && (k in table ==> r[k] == table[k])
  {
    map k | k in table.Keys + (set c | c in classes) :: if k in classes then limits else table[k]
  }

  /** After a save, the saved class resolves to its own row with the saved limits, and every
      other class resolves as before unless it falls back on the saved row. */
  lemma SaveResolves(table: map<(int, int), Limits>, grade: int, classNumber: int, limits: Limits, g: int, c: int)
    ensures Resolve(table[(grade, classNumber) := limits], grade, classNumber) == Some(FoundSetting(limits, Individual))
    ensures (g, c) != (grade, classNumber) && (g, 0) != (grade, classNumber) && (0, 0) != (grade, classNumber) ==>
      Resolve(table[(grade, classNumber) := limits], g, c) == Resolve(table, g, c)
  {
  }

  /** After a batch save, every listed class resolves to its own row with the saved limits. */
  lemma BatchSaveResolves(table: map<(int, int), Limits>, classes: seq<(int, int)>, limits: Limits)
    ensures forall k :: k in classes ==> Resolve(Saved(table, classes, limits), k.0, k.1) == Some(FoundSetting(limits, Individual))
  {
  }

  /** After deleting a class's own row (not the global one, and not a grade row), the class
      resolves to the next level, as it stood before. */
  lemma DeleteFallsThrough(table: map<(int, int), Limits>, grade: int, classNumber: int)
    requires classNumber != 0
    ensures Resolve(table - {(grade, classNumber)}, grade, classNumber) == Fallback(table, grade, classNumber)
  {
  }

  /** Deleting a grade-wide row sends the grade's unconfigured classes to the global row. */
  lemma DeleteGradeRow(table: map<(int, int), Limits>, grade: int, c: int)
    requires grade != 0 && (grade, c) !in table
    ensures Resolve(table - {(grade, 0)}, grade, c) ==
      if (0, 0) in table then Some(FoundSetting(table[(0, 0)], Global)) else None
  {
  }
}
