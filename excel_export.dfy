/** The spreadsheet downloads (src/utils/excelExport.js): the rows built from the learning
    records and from the help records, the file names, and the guard against an empty sheet.
    Writing the workbook is an outcome passed in as `writeOk`. */
module ExcelExport {
  import opened Wrappers
  import opened Text
  import Time
  import Sorting
  import opened Database
  import LearningRecords
  import AdminHelpRecords

  const NoDataMessage := "다운로드할 데이터가 없습니다"
  const WriteErrorMessage := "Excel 다운로드 중 오류가 발생했습니다"
  const UnknownName := "알 수 없음"
  const Approved := "승인"
  const NotApproved := "미승인"

  /** What a download request ends in: no file for no data, a file with its name and rows, or a
      failed write. */
  datatype Download<R> = NoData | Written(fileName: string, sheet: seq<R>) | WriteFailed

  predicate NoDash(s: string) {
    forall i :: 0 <= i < |s| ==> s[i] != '-'
  }

  /** `.replace(/-/g, '')`: every dash removed, everything else kept in order. */
  function RemoveDashes(s: string): (r: string)
    ensures NoDash(r) && |r| <= |s|
    ensures NoDash(s) ==> r == s
  {
    if s == [] then []
    else if s[0] == '-' then RemoveDashes(s[1..])
    else [s[0]] + RemoveDashes(s[1..])
  }

  lemma {:induction false} RemoveDashesAppend(a: string, b: string)
    ensures RemoveDashes(a + b) == RemoveDashes(a) + RemoveDashes(b)
  {
    if a == [] {
      assert a + b == b;
    } else {
      assert (a + b)[1..] == a[1..] + b;
      RemoveDashesAppend(a[1..], b);
    }
  }

  /** The date stamp of a file name: the UTC date of `now` without its dashes. */
  function DateStampOf(now: int): string {
    RemoveDashes(Time.UtcDateString(now))
  }

  /** The name given to the workbook: the base name, "_", the date stamp and ".xlsx". */
  function FullFileName(filename: string, now: int): string {
    filename + "_" + DateStampOf(now) + ".xlsx"
  }

  /** Removing the dashes of "A-B-C" joins its three parts. */
  lemma RemoveDashesJoin(a: string, b: string, c: string)
    requires NoDash(a) && NoDash(b) && NoDash(c)
    ensures RemoveDashes(a + "-" + b + "-" + c) == a + b + c
  {
    var dash: string := "-";
    assert RemoveDashes(dash) == [] by {
      assert dash[0] == '-' && dash[1..] == [];
    }
    RemoveDashesAppend(a, dash);
    var s1 := RemoveDashes(a + dash);
    assert s1 == a;
    RemoveDashesAppend(a + dash, b);
    var s2 := RemoveDashes(a + dash + b);
    assert s2 == a + b;
    RemoveDashesAppend(a + dash + b, dash);
    var s3 := RemoveDashes(a + dash + b + dash);
    assert s3 == a + b;
    RemoveDashesAppend(a + dash + b + dash, c);
    assert RemoveDashes(a + dash + b + dash + c) == a + b + c;
  }

  /** The date stamp of a file name is the year followed by the two-digit month and day. */
  lemma DateStamp(d: Time.Date)
    requires Time.ValidDate(d) && d.year >= 0
    ensures RemoveDashes(Time.DateString(d)) == NatToString(d.year) + Time.Pad2(d.month) + Time.Pad2(d.day)
    ensures |RemoveDashes(Time.DateString(d))| == |NatToString(d.year)| + 4
  {
    var y, m, dd := NatToString(d.year), Time.Pad2(d.month), Time.Pad2(d.day);
    Time.Pad2Value(d.month);
    Time.Pad2Value(d.day);
    assert Time.DateString(d) == y + "-" + m + "-" + dd;
    RemoveDashesJoin(y, m, dd);
  }

  /** The date stamp of `now` is its UTC year, month and day, the last two padded to two digits. */
  lemma DateStampOfNow(now: int)
    ensures var d := Time.CivilFromDays(Time.UtcDay(now));
      d.year >= 0 ==> DateStampOf(now) == NatToString(d.year) + Time.Pad2(d.month) + Time.Pad2(d.day)
  {
    var d := Time.CivilFromDays(Time.UtcDay(now));
    if d.year >= 0 {
      DateStamp(d);
    }
  }

  /** exportToExcel: no data gives no file; otherwise the rows are written under the dated
      name, unless the write fails. */
  function ExportToExcel<R>(data: seq<R>, filename: string, now: int, writeOk: bool): (r: Download<R>)
    ensures r.NoData? <==> data == []
    ensures r.Written? <==> data != [] && writeOk
    ensures r.Written? ==> r.sheet == data && StartsWith(r.fileName, filename + "_")
    ensures var d := Time.CivilFromDays(Time.UtcDay(now));
      r.Written? && d.year >= 0 ==>
        r.fileName == filename + "_" + NatToString(d.year) + Time.Pad2(d.month) + Time.Pad2(d.day) + ".xlsx"
  {
    if data == [] then NoData
    else if !writeOk then WriteFailed
    else
      DateStampOfNow(now);
      var pre, rest := filename + "_", DateStampOf(now) + ".xlsx";
      assert FullFileName(filename, now) == pre + rest;
      assert (pre + rest)[..|pre|] == pre;
      Written(FullFileName(filename, now), data)
  }

  /** `ys.map((y, index) => row(n + index, y))`. */
  function Numbered<T, R>(ys: seq<T>, row: (int, T) -> R, n: int): (r: seq<R>)
    ensures |r| == |ys| && forall i :: 0 <= i < |ys| ==> r[i] == row(n + i, ys[i])
  {
    seq(|ys|, i requires 0 <= i < |ys| => row(n + i, ys[i]))
  }

  /** The text of a truthy value. */
  function OrEmpty(s: Option<string>): (r: string)
    ensures Truthy(s) ==> r == s.value
  {
    if s.Some? then s.value else ""
  }

  datatype LearningRow = LearningRow(number: int, studentName: string, aiText: string)

  predicate HasLearningText(x: LearningRecords.LatestRecord) {
    Truthy(x.record.aiText)
  }

  function LearningRowOf(k: int, x: LearningRecords.LatestRecord): LearningRow {
    LearningRow(k, x.studentName, OrEmpty(x.record.aiText))
  }

  /** The learning-record sheet. */
  function LearningSheet(records: seq<LearningRecords.LatestRecord>): seq<LearningRow> {
    Numbered(Sorting.Filter(records, HasLearningText), LearningRowOf, 1)
  }

  /** The learning-record sheet holds exactly the records with a non-empty AI text, in their
      order, numbered 1, 2, … with the student's name and the AI text. */
  lemma LearningSheetSpec(records: seq<LearningRecords.LatestRecord>)
    ensures var f := Sorting.Filter(records, HasLearningText);
      var r := LearningSheet(records);
      && (forall x :: x in f <==> x in records && HasLearningText(x))
      && |r| == |f|
      && forall i :: 0 <= i < |r| ==>
        r[i].number == i + 1 && r[i].studentName == f[i].studentName && r[i].aiText == f[i].record.aiText.value
  {
    Sorting.FilterMembers(records, HasLearningText);
  }

  /** `배움기록_${classInfo.replace('-', '학년')}`. */
  function LearningFileName(classInfo: string): string {
    "배움기록_" + ReplaceFirst(classInfo, "-", "학년")
  }

  /** A class "G-C" names its file "배움기록_G학년C". */
  lemma LearningFileNameOfClass(g: string, c: string)
    requires forall i :: 0 <= i < |g| ==> g[i] != '-'
    ensures LearningFileName(g + "-" + c) == "배움기록_" + g + "학년" + c
  {
    ReplaceFirstAt(g, "-", c, "학년");
  }

  /** exportLearningRecords. */
  function ExportLearningRecords(records: seq<LearningRecords.LatestRecord>, classInfo: string, now: int, writeOk: bool)
    : (r: Download<LearningRow>)
    ensures r.NoData? <==> forall x :: x in records ==> !HasLearningText(x)
    ensures r.Written? ==> r.sheet == LearningSheet(records) && StartsWith(r.fileName, LearningFileName(classInfo) + "_")
  {
    LearningSheetSpec(records);
    ExportToExcel(LearningSheet(records), LearningFileName(classInfo), now, writeOk)
  }

  /** One row of the help sheet; the date column is not modelled. */
  datatype HelpRow = HelpRow(number: int, helperName: string, helpedName: string, original: Option<string>,
                             aiText: string, approval: string)

  /** `student?.name || '알 수 없음'`: a missing student or an empty name shows as unknown. */
  function NameOr(s: Option<Student>): (r: string)
    ensures r != ""
    ensures r != UnknownName ==> s.Some? && r == s.value.name
    ensures s.Some? && s.value.name != "" ==> r == s.value.name
  {
    if s.Some? && s.value.name != "" then s.value.name else UnknownName
  }

  function ApprovalText(approved: bool): (r: string)
    ensures r == Approved <==> approved
    ensures r == NotApproved <==> !approved
  {
    if approved then Approved else NotApproved
  }

  predicate HasHelpText(x: AdminHelpRecords.HelpRecord) {
    Truthy(x.tx.aiText)
  }

  function HelpRowOf(k: int, x: AdminHelpRecords.HelpRecord): HelpRow {
    HelpRow(k, NameOr(x.helper), NameOr(x.helped), x.tx.helpDescription, OrEmpty(x.tx.aiText), ApprovalText(x.tx.isApproved))
  }

  function HelpSheet(records: seq<AdminHelpRecords.HelpRecord>): seq<HelpRow> {
    Numbered(Sorting.Filter(records, HasHelpText), HelpRowOf, 1)
  }

  /** The help sheet holds exactly the records with a non-empty AI text, in their order and
      numbered from 1, each with both names (or the unknown name), the original description, the
      AI text and the approval word. */
  lemma HelpSheetSpec(records: seq<AdminHelpRecords.HelpRecord>)
    ensures var f := Sorting.Filter(records, HasHelpText);
      var r := HelpSheet(records);
      && (forall x :: x in f <==> x in records && HasHelpText(x))
      && |r| == |f|
      && forall i :: 0 <= i < |r| ==>
        && r[i].number == i + 1
        && r[i].helperName == NameOr(f[i].helper) && r[i].helpedName == NameOr(f[i].helped)
        && r[i].original == f[i].tx.helpDescription && r[i].aiText == f[i].tx.aiText.value
        && (r[i].approval == Approved <==> f[i].tx.isApproved)
  {
    Sorting.FilterMembers(records, HasHelpText);
  }

  /** `도움내용_${classInfo}`. */
  function HelpFileName(classInfo: string): string {
    "도움내용_" + classInfo
  }

  /** exportHelpRecords. */
  function ExportHelpRecords(records: seq<AdminHelpRecords.HelpRecord>, classInfo: string, now: int, writeOk: bool)
    : (r: Download<HelpRow>)
    ensures r.NoData? <==> forall x :: x in records ==> !HasHelpText(x)
    ensures r.Written? ==> r.sheet == HelpSheet(records) && StartsWith(r.fileName, HelpFileName(classInfo) + "_")
  {
    HelpSheetSpec(records);
    ExportToExcel(HelpSheet(records), HelpFileName(classInfo), now, writeOk)
  }
}
