/** Input checks for student ids ("GCNN": grade, class, two-digit number), names, class texts
    ("G-C") and the administrator password (src/utils/validationUtils.js).
    A JavaScript argument that is missing or not a string is `None`. */
module Validation {
  import opened Wrappers
  import opened Text

  /** `x < k` on a parsed number: comparisons with NaN are false. */
  predicate Below(x: JsNum, k: int) {
    x.Num? && x.value < k
  }

  /** `x > k` on a parsed number. */
  predicate Above(x: JsNum, k: int) {
    x.Num? && x.value > k
  }

  /** The grade/class rule both validators apply: grade 3, 4 or 6; classes 1-3 in grades 3 and
      4, classes 1-7 in grade 6. */
  predicate GradeClassAllowed(grade: JsNum, classNum: JsNum) {
    if !(grade == Num(3) || grade == Num(4) || grade == Num(6)) then false
    else if grade == Num(3) || grade == Num(4) then !(Below(classNum, 1) || Above(classNum, 3))
    else !(Below(classNum, 1) || Above(classNum, 7))
  }

  /** validateStudentId. */
  predicate ValidateStudentId(id: Option<string>) {
    match id
    case None => false
    case Some(s) =>
      if s == [] then false
      else if !(|s| == 4 && AllDigits(s)) then false
      else
        var grade := ParseInt(s[0..1]);
        var classNum := ParseInt(s[1..2]);
        var studentNum := ParseInt(s[2..]);
        if !GradeClassAllowed(grade, classNum) then false
        else !(Below(studentNum, 1) || Above(studentNum, 99))
  }

  /** The highest class digit allowed for a grade digit. */
  function MaxClassDigit(g: char): char {
    if g == '6' then '7' else '3'
  }

  /** The accepted ids, character by character: four ASCII digits, the first 3, 4 or 6, the
      second within the grade's classes, and a number other than "00". */
  predicate IsStudentIdShape(s: string) {
    |s| == 4 && AllDigits(s)
    && (s[0] == '3' || s[0] == '4' || s[0] == '6')
    && '1' <= s[1] <= MaxClassDigit(s[0])
    && !(s[2] == '0' && s[3] == '0')
  }

  lemma ParseOneDigit(s: string)
    requires |s| == 1 && IsDigit(s[0])
    ensures ParseInt(s) == Num(DigitVal(s[0]))
  {
    assert s == [s[0]];
    ParseIntChar(s[0]);
  }

  lemma ParseTwoDigits(s: string)
    requires |s| == 2 && IsDigit(s[0]) && IsDigit(s[1])
    ensures ParseInt(s) == Num(10 * DigitVal(s[0]) + DigitVal(s[1]))
  {
    ParseIntDigits(s);
    var h := s[..|s| - 1];
    assert h[..|h| - 1] == [] && h[|h| - 1] == s[0];
    assert DigitsValue(h) == DigitVal(s[0]);
  }

  /** The three parts validateStudentId reads from a four-digit id: the first digit, the second
      digit and the value of the last two. */
  lemma StudentIdPartsValues(s: string)
    requires |s| == 4 && AllDigits(s)
    ensures ParseInt(s[0..1]) == Num(DigitVal(s[0]))
    ensures ParseInt(s[1..2]) == Num(DigitVal(s[1]))
    ensures ParseInt(s[2..]) == Num(10 * DigitVal(s[2]) + DigitVal(s[3]))
  {
    var a, b, c := s[0..1], s[1..2], s[2..];
    assert a[0] == s[0] && b[0] == s[1] && c[0] == s[2] && c[1] == s[3];
    ParseOneDigit(a);
    ParseOneDigit(b);
    ParseTwoDigits(c);
  }

  /** On the digit values, the grade/class rule and the 1..99 number range are the shape. */
  lemma StudentIdRuleShape(s: string)
    requires |s| == 4 && AllDigits(s)
    ensures (GradeClassAllowed(Num(DigitVal(s[0])), Num(DigitVal(s[1])))
             && !(Below(Num(10 * DigitVal(s[2]) + DigitVal(s[3])), 1)
                  || Above(Num(10 * DigitVal(s[2]) + DigitVal(s[3])), 99)))
            <==> IsStudentIdShape(s)
  {
  }

  /** validateStudentId accepts exactly the ids of the shape above. */
  lemma ValidateStudentIdIff(s: string)
    ensures ValidateStudentId(Some(s)) <==> IsStudentIdShape(s)
  {
    if |s| == 4 && AllDigits(s) {
      var g, c, n := Num(DigitVal(s[0])), Num(DigitVal(s[1])), Num(10 * DigitVal(s[2]) + DigitVal(s[3]));
      StudentIdPartsValues(s);
      assert ValidateStudentId(Some(s)) == (GradeClassAllowed(g, c) && !(Below(n, 1) || Above(n, 99)));
      StudentIdRuleShape(s);
    }
  }

  /** validateName. */
  predicate ValidateName(name: Option<string>) {
    match name
    case None => false
    case Some(s) =>
      if s == [] then false
      else
        var trimmed := Trim(s);
        if |trimmed| == 0 then false
        else |trimmed| <= 10
  }

  /** A name is accepted iff it is not blank and has at most ten characters once trimmed. */
  lemma ValidateNameIff(s: string)
    ensures ValidateName(Some(s)) <==> !IsBlank(s) && |Trim(s)| <= 10
  {
    TrimEmptyIffBlank(s);
  }

  /** validateClassText: `/^(\d)-(\d)$/`, then the grade/class rule. */
  predicate ValidateClassText(text: Option<string>) {
    match text
    case None => false
    case Some(s) =>
      if s == [] then false
      else if !(|s| == 3 && IsDigit(s[0]) && s[1] == '-' && IsDigit(s[2])) then false
      else GradeClassAllowed(ParseInt(s[0..1]), ParseInt(s[2..3]))
  }

  /** validateClassText accepts exactly "G-C" with G in {3, 4, 6} and C within G's classes. */
  lemma ValidateClassTextIff(s: string)
    ensures ValidateClassText(Some(s)) <==>
      |s| == 3 && s[1] == '-' && (s[0] == '3' || s[0] == '4' || s[0] == '6')
      && '1' <= s[2] <= MaxClassDigit(s[0])
  {
    if |s| == 3 && IsDigit(s[0]) && s[1] == '-' && IsDigit(s[2]) {
      var g, c := Num(DigitVal(s[0])), Num(DigitVal(s[2]));
      ClassTextPartsValues(s);
      assert ValidateClassText(Some(s)) == GradeClassAllowed(g, c);
      ClassRuleShape(s[0], s[2]);
    }
  }

  /** The two digits validateClassText reads from a "G-C" text. */
  lemma ClassTextPartsValues(s: string)
    requires |s| == 3 && IsDigit(s[0]) && IsDigit(s[2])
    ensures ParseInt(s[0..1]) == Num(DigitVal(s[0]))
    ensures ParseInt(s[2..3]) == Num(DigitVal(s[2]))
  {
    var a, b := s[0..1], s[2..3];
    assert a[0] == s[0] && b[0] == s[2];
    ParseOneDigit(a);
    ParseOneDigit(b);
  }

  /** On digit values, the grade/class rule is the character rule. */
  lemma ClassRuleShape(g: char, c: char)
    requires IsDigit(g) && IsDigit(c)
    ensures GradeClassAllowed(Num(DigitVal(g)), Num(DigitVal(c)))
            <==> (g == '3' || g == '4' || g == '6') && '1' <= c <= MaxClassDigit(g)
  {
  }

  /** The "G-C" text of an accepted student id is an accepted class text. */
  lemma ValidIdGivesValidClassText(id: string)
    requires ValidateStudentId(Some(id))
    ensures ValidateClassText(Some([id[0], '-', id[1]]))
  {
    ValidateStudentIdIff(id);
    ValidateClassTextIff([id[0], '-', id[1]]);
  }

  /** validateAdminPassword: strict equality with the fixed password. */
  predicate ValidateAdminPassword(password: string) {
    password == "teacher123"
  }
}
