/** Parsing and display helpers for ids, class texts, points and links
    (src/utils/formatUtils.js). */
module Format {
  import opened Wrappers
  import opened Text
  import Validation

  const IdLengthError := "학번은 4자리여야 합니다."
  const ClassFormatError := "학급 형식이 올바르지 않습니다. (예: 3-1)"

  datatype StudentIdParts = StudentIdParts(grade: JsNum, classNumber: JsNum, studentNumber: JsNum)

  datatype ClassParts = ClassParts(grade: int, classNumber: int)

  /** parseStudentId: throws unless the id is a four-character string; each part is read with
      `parseInt`, so a non-digit part is NaN. */
  function ParseStudentId(id: Option<string>): (r: Result<StudentIdParts, string>)
    ensures r.Ok? <==> id.Some? && |id.value| == 4
  {
    match id
    case None => Err(IdLengthError)
    case Some(s) =>
      if |s| != 4 then Err(IdLengthError)
      else Ok(StudentIdParts(ParseInt(s[0..1]), ParseInt(s[1..2]), ParseInt(s[2..])))
  }

  /** For a four-digit id the grade is the first digit, the class the second and the number the
      value of the last two. */
  lemma ParseStudentIdDigits(s: string)
    requires |s| == 4 && AllDigits(s)
    ensures ParseStudentId(Some(s)) == Ok(StudentIdParts(Num(DigitVal(s[0])), Num(DigitVal(s[1])),
                                                         Num(10 * DigitVal(s[2]) + DigitVal(s[3]))))
  {
    Validation.StudentIdPartsValues(s);
  }

  /** parseClassText: `/^(\d)-(\d)$/` or an error. */
  function ParseClassText(text: string): (r: Result<ClassParts, string>)
    ensures r.Ok? <==> |text| == 3 && IsDigit(text[0]) && text[1] == '-' && IsDigit(text[2])
    ensures r.Ok? ==> 0 <= r.value.grade <= 9 && 0 <= r.value.classNumber <= 9
  {
    if |text| == 3 && IsDigit(text[0]) && text[1] == '-' && IsDigit(text[2]) then
      Ok(ClassParts(DigitVal(text[0]), DigitVal(text[2])))
    else Err(ClassFormatError)
  }

  /** For an id of the accepted shape (exactly the ids validateStudentId accepts, by
      Validation.ValidateStudentIdIff), its "G-C" text parses to the same grade and class as
      the id. */
  lemma ClassTextAgreesWithStudentId(id: string)
    requires Validation.IsStudentIdShape(id)
    ensures ParseClassText([id[0], '-', id[1]]).Ok?
    ensures ParseStudentId(Some(id)).Ok?
    ensures ParseStudentId(Some(id)).value.grade == Num(ParseClassText([id[0], '-', id[1]]).value.grade)
    ensures ParseStudentId(Some(id)).value.classNumber == Num(ParseClassText([id[0], '-', id[1]]).value.classNumber)
  {
    var t := [id[0], '-', id[1]];
    assert |t| == 3 && t[0] == id[0] && t[1] == '-' && t[2] == id[1];
    assert ParseClassText(t) == Ok(ClassParts(DigitVal(id[0]), DigitVal(id[1])));
    ParseStudentIdDigits(id);
  }

  /** A number as a template string shows it. */
  function NumText(n: JsNum): string {
    match n
    case NaN => "NaN"
    case Num(v) => IntToString(v)
  }

  /** The class of a student id as `${grade}-${classNumber}` from parseStudentId; none when
      parseStudentId throws. */
  function ClassOfStudentId(id: Option<string>): (r: Option<string>)
    ensures r.Some? <==> id.Some? && |id.value| == 4
  {
    match ParseStudentId(id)
    case Err(_) => None
    case Ok(parts) => Some(NumText(parts.grade) + "-" + NumText(parts.classNumber))
  }

  /** For a four-digit id the class text is its first digit, a dash and its second digit. */
  lemma ClassOfDigitId(id: string)
    requires |id| == 4 && AllDigits(id)
    ensures ClassOfStudentId(Some(id)) == Some(NatToString(DigitVal(id[0])) + "-" + NatToString(DigitVal(id[1])))
  {
    ParseStudentIdDigits(id);
  }

  /** formatClassInfo. */
  function FormatClassInfo(grade: JsNum, classNumber: JsNum): string {
    NumText(grade) + "학년 " + NumText(classNumber) + "반"
  }

  /** formatStudentId: the parse error propagates. */
  function FormatStudentId(id: Option<string>): Result<string, string> {
    match ParseStudentId(id)
    case Err(e) => Err(e)
    case Ok(p) => Ok(StudentIdText(p))
  }

  /** `${grade}학년 ${classNumber}반 ${studentNumber}번`. */
  function StudentIdText(p: StudentIdParts): string {
    NumText(p.grade) + "학년 " + NumText(p.classNumber) + "반 " + NumText(p.studentNumber) + "번"
  }

  lemma DigitRoundTrip(c: char)
    requires IsDigit(c)
    ensures NatToString(DigitVal(c)) == [c]
  {
  }

  /** The two-digit number shows without a leading zero. */
  lemma NumberText(a: char, b: char)
    requires IsDigit(a) && IsDigit(b)
    ensures NumText(Num(10 * DigitVal(a) + DigitVal(b))) == if a == '0' then [b] else [a, b]
  {
    var v := 10 * DigitVal(a) + DigitVal(b);
    DigitRoundTrip(b);
    if a != '0' {
      assert v / 10 == DigitVal(a) && v % 10 == DigitVal(b);
      DigitRoundTrip(a);
      assert NatToString(v) == NatToString(v / 10) + [DigitChar(v % 10)];
    }
  }

  /** formatStudentId is formatClassInfo of the grade and class, then the number and "번". */
  lemma StudentIdTextIsClassInfo(p: StudentIdParts)
    ensures StudentIdText(p) == FormatClassInfo(p.grade, p.classNumber) + " " + NumText(p.studentNumber) + "번"
  {
    var x := NumText(p.grade) + "학년 " + NumText(p.classNumber);
    assert "반" + " " == "반 ";
    assert x + "반 " == (x + "반") + " ";
  }

  /** The class text of a grade digit and a class digit shows the two digits. */
  lemma ClassInfoOfDigits(g: char, c: char)
    requires IsDigit(g) && IsDigit(c)
    ensures FormatClassInfo(Num(DigitVal(g)), Num(DigitVal(c))) == [g] + "학년 " + [c] + "반"
  {
    DigitRoundTrip(g);
    DigitRoundTrip(c);
  }

  /** For a four-digit id the display text is the class text followed by the number with its
      leading zero dropped. */
  lemma FormatStudentIdDigits(s: string)
    requires |s| == 4 && AllDigits(s)
    ensures FormatStudentId(Some(s)) ==
      Ok(FormatClassInfo(Num(DigitVal(s[0])), Num(DigitVal(s[1]))) + " "
         + (if s[2] == '0' then [s[3]] else [s[2], s[3]]) + "번")
    ensures FormatClassInfo(Num(DigitVal(s[0])), Num(DigitVal(s[1]))) == [s[0]] + "학년 " + [s[1]] + "반"
  {
    ParseStudentIdDigits(s);
    var p := StudentIdParts(Num(DigitVal(s[0])), Num(DigitVal(s[1])), Num(10 * DigitVal(s[2]) + DigitVal(s[3])));
    assert FormatStudentId(Some(s)) == Ok(StudentIdText(p));
    DigitPartsText(s[0], s[1], s[2], s[3]);
    ClassInfoOfDigits(s[0], s[1]);
  }

  /** The display text of the parts read from the digits g, c, a, b. */
  lemma DigitPartsText(g: char, c: char, a: char, b: char)
    requires IsDigit(g) && IsDigit(c) && IsDigit(a) && IsDigit(b)
    ensures StudentIdText(StudentIdParts(Num(DigitVal(g)), Num(DigitVal(c)), Num(10 * DigitVal(a) + DigitVal(b))))
         == FormatClassInfo(Num(DigitVal(g)), Num(DigitVal(c))) + " " + (if a == '0' then [b] else [a, b]) + "번"
  {
    var p := StudentIdParts(Num(DigitVal(g)), Num(DigitVal(c)), Num(10 * DigitVal(a) + DigitVal(b)));
    StudentIdTextIsClassInfo(p);
    NumberText(a, b);
  }

  /** formatPoints: `current/max`, the maximum defaulting to 20. */
  function FormatPoints(current: int, max: Option<int>): string {
    IntToString(current) + "/" + IntToString(max.GetOr(20))
  }

  lemma NoSlashInNumber(n: int)
    ensures '/' !in IntToString(n)
  {
  }

  /** The points text splits back on '/' into the current value and the maximum (20 when none is
      given), so different values never display alike. */
  lemma FormatPointsRoundTrip(current: int, max: Option<int>)
    ensures Split(FormatPoints(current, max), '/') == [IntToString(current), IntToString(max.GetOr(20))]
  {
    NoSlashInNumber(current);
    NoSlashInNumber(max.GetOr(20));
    SplitAround(IntToString(current), IntToString(max.GetOr(20)), '/');
  }

  lemma FormatPointsInjective(c1: int, m1: Option<int>, c2: int, m2: Option<int>)
    requires FormatPoints(c1, m1) == FormatPoints(c2, m2)
    ensures c1 == c2 && m1.GetOr(20) == m2.GetOr(20)
  {
    FormatPointsRoundTrip(c1, m1);
    FormatPointsRoundTrip(c2, m2);
    IntToStringInjective(c1, c2);
    IntToStringInjective(m1.GetOr(20), m2.GetOr(20));
  }

  /** `Math.round(n / d)` for a positive divisor, on exact rationals: the nearest integer, halves
      rounded up. */
  function RoundDiv(n: int, d: int): (r: int)
    requires d > 0
    ensures 2 * d * r <= 2 * n + d < 2 * d * (r + 1)
  {
    (2 * n + d) / (2 * d)
  }

  /** calculatePointsPercent on integers (the floating-point rounding replaced by exact
      rounding): 0 when the maximum is 0, never above 100, and within [0, 100] for points
      between 0 and a positive maximum. */
  function CalculatePointsPercent(current: int, max: Option<int>): (r: int)
    ensures max.GetOr(20) == 0 ==> r == 0
    ensures r <= 100
    ensures 0 <= current && max.GetOr(20) > 0 ==> r >= 0
  {
    var m := max.GetOr(20);
    if m == 0 then 0
    else
      var p := if m > 0 then RoundDiv(100 * current, m) else RoundDiv(-100 * current, -m);
      if p < 100 then p else 100
  }

  /** The scheme part of `https?:\/\/` at the front of the text: 8, 7, or 0 when absent. */
  function SchemeLength(s: string): nat {
    if StartsWith(s, "https://") then 8 else if StartsWith(s, "http://") then 7 else 0
  }

  /** The length of the `[^\s]+` run at the front of the text. */
  function NonSpaceRun(s: string): (n: nat)
    ensures n <= |s|
    ensures forall i :: 0 <= i < n ==> !IsSpace(s[i])
  {
    if s == [] || IsSpace(s[0]) then 0 else 1 + NonSpaceRun(s[1..])
  }

  /** The length of the `https?:\/\/[^\s]+` match at the front of the text, 0 when none. */
  function MatchLength(s: string): (n: nat)
    ensures n <= |s|
  {
    var k := SchemeLength(s);
    if k == 0 then 0
    else
      var run := NonSpaceRun(s[k..]);
      if run == 0 then 0 else k + run
  }

  /** The global matches, scanning left to right and resuming after each match. */
  function Links(s: string): seq<string>
    decreases |s|
  {
    if s == [] then []
    else
      var n := MatchLength(s);
      if n > 0 then [s[..n]] + Links(s[n..]) else Links(s[1..])
  }

  /** extractLinks: no links for missing or empty text. */
  function ExtractLinks(text: Option<string>): seq<string> {
    match text
    case None => []
    case Some(s) => if s == [] then [] else Links(s)
  }

  /** A link: "http://" or "https://" followed by at least one character, none of them white
      space. */
  predicate IsLink(u: string) {
    ((StartsWith(u, "http://") && |u| > 7) || (StartsWith(u, "https://") && |u| > 8))
    && forall i :: 0 <= i < |u| ==> !IsSpace(u[i])
  }

  lemma MatchIsLink(s: string)
    requires MatchLength(s) > 0
    ensures IsLink(s[..MatchLength(s)])
  {
    var k := SchemeLength(s);
    var n := MatchLength(s);
    var u := s[..n];
    assert u[..k] == s[..k];
    forall i | 0 <= i < |u| ensures !IsSpace(u[i]) {
      if i >= k {
        assert u[i] == s[k..][i - k];
      } else if k == 8 {
        assert u[i] == "https://"[i];
      } else {
        assert u[i] == "http://"[i];
      }
    }
  }

  /** Every extracted link starts with "http://" or "https://" and has no white space. */
  lemma {:induction false} LinksAreLinks(s: string)
    ensures forall u :: u in Links(s) ==> IsLink(u)
    decreases |s|
  {
    if s != [] {
      var n := MatchLength(s);
      if n > 0 {
        MatchIsLink(s);
        LinksAreLinks(s[n..]);
      } else {
        LinksAreLinks(s[1..]);
      }
    }
  }

  lemma ExtractLinksSpec(text: Option<string>)
    ensures text == None || text == Some("") ==> ExtractLinks(text) == []
    ensures forall u :: u in ExtractLinks(text) ==> IsLink(u)
  {
    if text.Some? {
      LinksAreLinks(text.value);
    }
  }
}
