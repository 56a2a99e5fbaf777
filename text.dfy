/** The parts of JavaScript's string semantics the application relies on: the white-space set
    used by `trim` and by `\s` in regular expressions, `parseInt` and `Number` on decimal text,
    `split` on one character, decimal rendering of integers (template strings) and the default
    string order of `Array.prototype.sort`. */
module Text {
  import opened Wrappers

  /** A JavaScript-truthy text: present and not empty. */
  predicate Truthy(s: Option<string>) {
    s.Some? && s.value != ""
  }

  /** ECMAScript white space and line terminators. */
  predicate IsSpace(c: char) {
    if c <= ' ' then
      c == '\t' || c == '\n' || c == '\U{000B}' || c == '\U{000C}' || c == '\r' || c == ' '
    else
      '\U{00A0}' <= c
      && (c == '\U{00A0}' || c == '\U{1680}' || ('\U{2000}' <= c <= '\U{200A}')
          || c == '\U{2028}' || c == '\U{2029}' || c == '\U{202F}' || c == '\U{205F}'
          || c == '\U{3000}' || c == '\U{FEFF}')
  }

  /** `\d`: an ASCII decimal digit. */
  predicate IsDigit(c: char) {
    '0' <= c <= '9'
  }

  predicate IsBlank(s: string) {
    forall i :: 0 <= i < |s| ==> IsSpace(s[i])
  }

  predicate AllDigits(s: string) {
    forall i :: 0 <= i < |s| ==> IsDigit(s[i])
  }

  /** The text with its leading white space removed. */
  function TrimStart(s: string): (r: string)
    ensures |r| <= |s| && r == s[|s| - |r|..]
    ensures r == [] || !IsSpace(r[0])
    ensures IsBlank(s[..|s| - |r|])
  {
    if s == [] || !IsSpace(s[0]) then s
    else
      var r := TrimStart(s[1..]);
      assert s[..|s| - |r|] == [s[0]] + s[1..][..|s| - 1 - |r|];
      r
  }

  /** The text with its trailing white space removed. */
  function TrimEnd(s: string): (r: string)
    ensures |r| <= |s| && r == s[..|r|]
    ensures r == [] || !IsSpace(r[|r| - 1])
    ensures IsBlank(s[|r|..])
  {
    if s == [] || !IsSpace(s[|s| - 1]) then s
    else
      var r := TrimEnd(s[..|s| - 1]);
      assert s[|r|..] == s[..|s| - 1][|r|..] + [s[|s| - 1]];
      r
  }

  /** `String.prototype.trim`. */
  function Trim(s: string): string {
    TrimEnd(TrimStart(s))
  }

  /** `trim` yields the text between a blank prefix and a blank suffix, starting and ending
      with a character that is not white space. */
  lemma TrimShape(s: string)
    ensures exists i, j :: 0 <= i <= j <= |s| && Trim(s) == s[i..j] && IsBlank(s[..i]) && IsBlank(s[j..])
    ensures Trim(s) == [] || (!IsSpace(Trim(s)[0]) && !IsSpace(Trim(s)[|Trim(s)| - 1]))
  {
    TrimBounds(s);
    TrimEnds(s);
  }

  lemma TrimBounds(s: string)
    ensures exists i, j :: 0 <= i <= j <= |s| && Trim(s) == s[i..j] && IsBlank(s[..i]) && IsBlank(s[j..])
  {
    var t := TrimStart(s);
    var i := |s| - |t|;
    var r := TrimEnd(t);
    var j := i + |r|;
    assert r == s[i..j];
    assert s[j..] == t[|r|..];
  }

  lemma TrimEnds(s: string)
    ensures Trim(s) == [] || (!IsSpace(Trim(s)[0]) && !IsSpace(Trim(s)[|Trim(s)| - 1]))
  {
    var t := TrimStart(s);
    var r := TrimEnd(t);
    if r != [] {
      assert r[0] == t[0];
    }
  }

  /** `trim` yields the empty string exactly for blank text. */
  lemma TrimEmptyIffBlank(s: string)
    ensures Trim(s) == [] <==> IsBlank(s)
  {
    var t := TrimStart(s);
    if Trim(s) == [] {
      assert IsBlank(t) by {
        assert t[0..] == t;
      }
      assert t == [];
      assert s[..|s|] == s;
    }
  }

  /** Trimming twice is trimming once. */
  lemma TrimIdempotent(s: string)
    ensures Trim(Trim(s)) == Trim(s)
  {
    TrimShape(s);
    var r := Trim(s);
    if r != [] {
      assert TrimStart(r) == r;
      assert TrimEnd(r) == r;
    }
  }

  /** White space before text that starts with a non-space character is what trimStart
      removes. */
  lemma {:induction false} TrimStartPadded(pad: string, x: string)
    requires IsBlank(pad) && (x == [] || !IsSpace(x[0]))
    ensures TrimStart(pad + x) == x
  {
    if pad != [] {
      assert (pad + x)[1..] == pad[1..] + x;
      TrimStartPadded(pad[1..], x);
    }
  }

  lemma {:induction false} TrimEndPadded(x: string, pad: string)
    requires IsBlank(pad) && (x == [] || !IsSpace(x[|x| - 1]))
    ensures TrimEnd(x + pad) == x
  {
    if pad != [] {
      assert (x + pad)[..|x + pad| - 1] == x + pad[..|pad| - 1];
      TrimEndPadded(x, pad[..|pad| - 1]);
    }
  }

  /** Trimming text surrounded by white space gives the text back, when it neither starts nor
      ends with white space. */
  lemma TrimPadded(pad: string, x: string, pad2: string)
    requires IsBlank(pad) && IsBlank(pad2) && x != [] && !IsSpace(x[0]) && !IsSpace(x[|x| - 1])
    ensures Trim(pad + x + pad2) == x
  {
    assert pad + x + pad2 == pad + (x + pad2);
    TrimStartPadded(pad, x + pad2);
    TrimEndPadded(x, pad2);
  }

  function DigitVal(c: char): nat
    requires IsDigit(c)
  {
    (c as int) - ('0' as int)
  }

  function DigitChar(d: nat): (c: char)
    requires d < 10
    ensures IsDigit(c) && DigitVal(c) == d
  {
    ('0' as int + d) as char
  }

  /** The value of a run of decimal digits, most significant first. */
  function DigitsValue(s: string): nat
    requires AllDigits(s)
  {
    if s == [] then 0 else 10 * DigitsValue(s[..|s| - 1]) + DigitVal(s[|s| - 1])
  }

  /** Decimal rendering of a non-negative integer, without leading zeros. */
  function NatToString(n: nat): (r: string)
    ensures |r| > 0 && AllDigits(r)
    ensures r[0] == '0' ==> n == 0 && |r| == 1
  {
    if n < 10 then [DigitChar(n)]
    else
      var p := NatToString(n / 10);
      p + [DigitChar(n % 10)]
  }

  /** Reading back the rendering of `n` gives `n`. */
  lemma {:induction false} NatToStringRoundTrip(n: nat)
    ensures DigitsValue(NatToString(n)) == n
  {
    var r := NatToString(n);
    if n >= 10 {
      NatToStringRoundTrip(n / 10);
      assert r[..|r| - 1] == NatToString(n / 10);
    }
  }

  lemma NatToStringInjective(a: nat, b: nat)
    requires NatToString(a) == NatToString(b)
    ensures a == b
  {
    NatToStringRoundTrip(a);
    NatToStringRoundTrip(b);
  }

  /** `String(n)` (and `${n}`) for an integer. */
  function IntToString(n: int): (r: string)
    ensures |r| > 0
  {
    if n < 0 then "-" + NatToString(-n) else NatToString(n)
  }

  /** Different integers render differently. */
  lemma IntToStringInjective(a: int, b: int)
    requires IntToString(a) == IntToString(b)
    ensures a == b
  {
    if a < 0 && b < 0 {
      assert NatToString(-a) == IntToString(a)[1..];
      NatToStringInjective(-a, -b);
    } else if a >= 0 && b >= 0 {
      NatToStringInjective(a, b);
    }
  }

  /** A JavaScript number as the application produces it from text: an integer or NaN. */
  datatype JsNum = Num(value: int) | NaN {
    /** JavaScript truthiness: NaN and 0 are falsy. */
    predicate Truthy() {
      Num? && value != 0
    }
  }

  /** The longest prefix of `s` made of digits. */
  function LeadingDigits(s: string): (r: string)
    ensures AllDigits(r) && |r| <= |s| && r == s[..|r|]
    ensures |r| == |s| || !IsDigit(s[|r|])
  {
    if s == [] || !IsDigit(s[0]) then []
    else
      var r := LeadingDigits(s[1..]);
      assert [s[0]] + r == s[..|r| + 1];
      [s[0]] + r
  }

  /** `parseInt(s)` (radix 10): leading white space is skipped, an optional sign is read,
      then the longest run of digits; NaN when there is no digit. */
  function ParseInt(s: string): JsNum {
    var t := TrimStart(s);
    if t != [] && (t[0] == '-' || t[0] == '+') then
      var d := LeadingDigits(t[1..]);
      if d == [] then NaN
      else if t[0] == '-' then Num(-(DigitsValue(d) as int))
      else Num(DigitsValue(d))
    else
      var d := LeadingDigits(t);
      if d == [] then NaN else Num(DigitsValue(d))
  }

  /** On a non-empty string of digits, `parseInt` is the decimal value. */
  lemma ParseIntDigits(s: string)
    requires s != [] && AllDigits(s)
    ensures ParseInt(s) == Num(DigitsValue(s))
  {
    assert TrimStart(s) == s;
    assert LeadingDigits(s) == s;
  }

  /** On text with no leading white space and no sign, `parseInt` reads the leading digits. */
  lemma ParseIntUnsigned(s: string)
    requires TrimStart(s) == s && (s == [] || (s[0] != '-' && s[0] != '+'))
    ensures ParseInt(s) == if LeadingDigits(s) == [] then NaN else Num(DigitsValue(LeadingDigits(s)))
  {
  }

  /** `parseInt` of one character: its value when it is a digit, NaN otherwise. */
  lemma ParseIntChar(c: char)
    ensures ParseInt([c]) == if IsDigit(c) then Num(DigitVal(c)) else NaN
  {
    if IsDigit(c) {
      ParseIntDigitChar(c);
    } else if IsSpace(c) {
      ParseIntSpaceChar(c);
    } else if c == '-' || c == '+' {
      ParseIntSignChar(c);
    } else {
      ParseIntOtherChar(c);
    }
  }

  lemma ParseIntDigitChar(c: char)
    requires IsDigit(c)
    ensures ParseInt([c]) == Num(DigitVal(c))
  {
    DigitNotSpace(c);
    TrimStartUnpadded([c]);
    LeadingDigitsOne(c);
    DigitsValueOne(c);
    ParseIntUnsigned([c]);
  }

  lemma ParseIntSpaceChar(c: char)
    requires IsSpace(c)
    ensures ParseInt([c]) == NaN
  {
    var s := [c];
    assert TrimStart(s) == [] by {
      assert TrimStart(s[1..]) == [];
    }
  }

  lemma ParseIntSignChar(c: char)
    requires c == '-' || c == '+'
    ensures ParseInt([c]) == NaN
  {
    TrimStartUnpadded([c]);
    ParseIntSignedNoDigits([c]);
  }

  lemma ParseIntOtherChar(c: char)
    requires !IsDigit(c) && !IsSpace(c) && c != '-' && c != '+'
    ensures ParseInt([c]) == NaN
  {
    TrimStartUnpadded([c]);
    ParseIntUnsigned([c]);
  }

  lemma DigitNotSpace(c: char)
    requires IsDigit(c)
    ensures !IsSpace(c)
  {
  }

  lemma TrimStartUnpadded(s: string)
    requires s != [] && !IsSpace(s[0])
    ensures TrimStart(s) == s
  {
  }

  lemma LeadingDigitsOne(c: char)
    requires IsDigit(c)
    ensures LeadingDigits([c]) == [c]
  {
    assert [c][1..] == [];
  }

  lemma DigitsValueOne(c: char)
    requires IsDigit(c)
    ensures DigitsValue([c]) == DigitVal(c)
  {
    assert [c][..0] == [];
  }

  lemma ParseIntSignedNoDigits(s: string)
    requires TrimStart(s) == s && |s| == 1 && (s[0] == '-' || s[0] == '+')
    ensures ParseInt(s) == NaN
  {
    assert s[1..] == [];
  }

  /** `parseInt` reads only the leading run of digits: anything after a non-digit is ignored. */
  lemma ParseIntPrefix(d: string, rest: string)
    requires d != [] && AllDigits(d)
    requires rest == [] || !IsDigit(rest[0])
    ensures ParseInt(d + rest) == Num(DigitsValue(d))
  {
    var s := d + rest;
    assert s[0] == d[0];
    DigitNotSpace(d[0]);
    TrimStartUnpadded(s);
    LeadingDigitsOfRun(d, rest);
    ParseIntUnsigned(s);
  }

  lemma {:induction false} LeadingDigitsOfRun(d: string, rest: string)
    requires AllDigits(d)
    requires rest == [] || !IsDigit(rest[0])
    ensures LeadingDigits(d + rest) == d
  {
    if d != [] {
      assert (d + rest)[1..] == d[1..] + rest;
      LeadingDigitsOfRun(d[1..], rest);
      assert [d[0]] + d[1..] == d;
    }
  }

  /** `Number(s)` on decimal text: surrounding white space is ignored, the empty string is 0,
      an optionally signed run of digits is its value, anything else is NaN. */
  function ToNumber(s: string): JsNum {
    var t := Trim(s);
    if t == [] then Num(0)
    else if AllDigits(t) then Num(DigitsValue(t))
    else if |t| > 1 && (t[0] == '-' || t[0] == '+') && AllDigits(t[1..]) then
      if t[0] == '-' then Num(-(DigitsValue(t[1..]) as int)) else Num(DigitsValue(t[1..]))
    else NaN
  }

  /** On a string of digits `Number` gives its value, and the empty string gives 0. */
  lemma ToNumberDigits(s: string)
    requires AllDigits(s)
    ensures ToNumber(s) == Num(DigitsValue(s))
  {
    if s != [] {
      assert !IsSpace(s[0]) && !IsSpace(s[|s| - 1]);
      assert TrimStart(s) == s;
      assert TrimEnd(s) == s;
    }
  }

  /** `s.split(sep)` for a one-character separator. */
  function Split(s: string, sep: char): (parts: seq<string>)
    ensures |parts| >= 1
    ensures forall i :: 0 <= i < |parts| ==> sep !in parts[i]
  {
    if s == [] then [[]]
    else
      var rest := Split(s[1..], sep);
      if s[0] == sep then [[]] + rest
      else [[s[0]] + rest[0]] + rest[1..]
  }

  /** `parts.join(sep)`. */
  function Join(parts: seq<string>, sep: char): string {
    if parts == [] then []
    else if |parts| == 1 then parts[0]
    else parts[0] + [sep] + Join(parts[1..], sep)
  }

  /** Splitting and joining again on the same separator gives back the text. */
  lemma {:induction false} SplitJoin(s: string, sep: char)
    ensures Join(Split(s, sep), sep) == s
  {
    if s != [] {
      var rest := Split(s[1..], sep);
      SplitJoin(s[1..], sep);
      if s[0] != sep {
        if |rest| > 1 {
          assert Split(s, sep)[1..] == rest[1..];
        }
      }
    }
  }

  /** The number of pieces is one more than the number of separators. */
  lemma {:induction false} SplitCount(s: string, sep: char)
    ensures |Split(s, sep)| == multiset(s)[sep] + 1
  {
    if s != [] {
      SplitCount(s[1..], sep);
      assert s == [s[0]] + s[1..];
    }
  }

  /** A text without the separator splits into itself alone. */
  lemma {:induction false} SplitNoSep(s: string, sep: char)
    requires sep !in s
    ensures Split(s, sep) == [s]
  {
    if s != [] {
      SplitNoSep(s[1..], sep);
      assert [s[0]] + s[1..] == s;
    }
  }

  /** A text with exactly one separator splits into what precedes and what follows it. */
  lemma {:induction false} SplitAround(a: string, b: string, sep: char)
    requires sep !in a && sep !in b
    ensures Split(a + [sep] + b, sep) == [a, b]
  {
    var s := a + [sep] + b;
    if a == [] {
      assert s[1..] == b;
      SplitNoSep(b, sep);
    } else {
      assert s[1..] == a[1..] + [sep] + b;
      SplitAround(a[1..], b, sep);
      assert [a[0]] + a[1..] == a;
    }
  }

  function StartsWith(s: string, p: string): bool {
    |p| <= |s| && s[..|p|] == p
  }

  /** `s.includes(p)`. */
  function Contains(s: string, p: string): bool {
    StartsWith(s, p) || (s != [] && Contains(s[1..], p))
  }

  /** `s.replace(p, r)` with a string pattern: only the first occurrence is replaced. */
  function ReplaceFirst(s: string, p: string, r: string): string {
    if StartsWith(s, p) then r + s[|p|..]
    else if s == [] then []
    else [s[0]] + ReplaceFirst(s[1..], p, r)
  }

  /** Text without an occurrence of the pattern is left as it is. */
  lemma {:induction false} ReplaceFirstAbsent(s: string, p: string, r: string)
    requires !Contains(s, p)
    ensures ReplaceFirst(s, p, r) == s
  {
    if s != [] {
      ReplaceFirstAbsent(s[1..], p, r);
    }
  }

  /** When the text before an occurrence of the pattern holds no character the pattern starts
      with, that occurrence is the one found and the one replaced. */
  lemma {:induction false} ReplaceFirstAt(a: string, p: string, b: string, r: string)
    requires p != [] && forall i :: 0 <= i < |a| ==> a[i] != p[0]
    ensures Contains(a + p + b, p)
    ensures ReplaceFirst(a + p + b, p, r) == a + r + b
  {
    var s := a + p + b;
    if a == [] {
      assert s == p + b;
      assert s[..|p|] == p;
      assert s[|p|..] == b;
    } else {
      assert s[0] == a[0];
      assert !StartsWith(s, p) by {
        if |p| <= |s| {
          assert s[..|p|][0] == s[0];
        }
      }
      assert s[1..] == a[1..] + p + b;
      ReplaceFirstAt(a[1..], p, b, r);
      calc {
        ReplaceFirst(s, p, r);
        [s[0]] + ReplaceFirst(s[1..], p, r);
        [a[0]] + (a[1..] + r + b);
        { assert [a[0]] + a[1..] == a; }
        a + r + b;
      }
    }
  }

  /** The same, for an occurrence at the very end, replaced by nothing. */
  lemma RemoveLast(a: string, p: string)
    requires p != [] && forall i :: 0 <= i < |a| ==> a[i] != p[0]
    ensures Contains(a + p, p)
    ensures ReplaceFirst(a + p, p, []) == a
  {
    ReplaceFirstAt(a, p, [], []);
    assert a + p + [] == a + p;
    assert a + [] + [] == a;
  }

  /** `s.replace(/\s+/g, '')`: every white-space character removed. */
  function RemoveSpaces(s: string): (r: string)
    ensures forall i :: 0 <= i < |r| ==> !IsSpace(r[i])
  {
    if s == [] then []
    else if IsSpace(s[0]) then RemoveSpaces(s[1..])
    else [s[0]] + RemoveSpaces(s[1..])
  }

  lemma {:induction false} RemoveSpacesAppend(a: string, b: string)
    ensures RemoveSpaces(a + b) == RemoveSpaces(a) + RemoveSpaces(b)
  {
    if a == [] {
      assert a + b == b;
    } else {
      assert (a + b)[1..] == a[1..] + b;
      RemoveSpacesAppend(a[1..], b);
    }
  }

  lemma {:induction false} RemoveSpacesBlank(a: string)
    requires IsBlank(a)
    ensures RemoveSpaces(a) == []
  {
    if a != [] {
      RemoveSpacesBlank(a[1..]);
    }
  }

  /** Text without white space is left as it is, so removing white space twice is removing it
      once. */
  lemma {:induction false} RemoveSpacesNone(a: string)
    requires forall i :: 0 <= i < |a| ==> !IsSpace(a[i])
    ensures RemoveSpaces(a) == a
  {
    if a != [] {
      RemoveSpacesNone(a[1..]);
      assert [a[0]] + a[1..] == a;
    }
  }

  lemma RemoveSpacesPadded(a: string, m: string, b: string)
    requires IsBlank(a) && IsBlank(b)
    ensures RemoveSpaces(a + m + b) == RemoveSpaces(m)
  {
    RemoveSpacesAppend(a + m, b);
    RemoveSpacesAppend(a, m);
    RemoveSpacesBlank(a);
    RemoveSpacesBlank(b);
  }

  /** Trimming first changes nothing once all white space is removed. */
  lemma RemoveSpacesOfTrim(s: string)
    ensures RemoveSpaces(Trim(s)) == RemoveSpaces(s)
  {
    RemoveSpacesTrimStart(s);
    RemoveSpacesTrimEnd(TrimStart(s));
  }

  lemma RemoveSpacesTrimStart(s: string)
    ensures RemoveSpaces(TrimStart(s)) == RemoveSpaces(s)
  {
    var t := TrimStart(s);
    var a := s[..|s| - |t|];
    assert s == a + t + [];
    RemoveSpacesPadded(a, t, []);
  }

  lemma RemoveSpacesTrimEnd(t: string)
    ensures RemoveSpaces(TrimEnd(t)) == RemoveSpaces(t)
  {
    var m := TrimEnd(t);
    var b := t[|m|..];
    assert t == [] + m + b;
    RemoveSpacesPadded([], m, b);
  }

  /** `s.slice(0, n)`. */
  function Take(s: string, n: nat): (r: string)
    ensures |r| <= n && |r| <= |s| && r == s[..|r|]
    ensures |s| <= n ==> r == s
  {
    if |s| <= n then s else s[..n]
  }

  /** The default order of `Array.prototype.sort` on strings: lexicographic by character. */
  predicate LexLe(a: string, b: string) {
    a == [] || (b != [] && (a[0] < b[0] || (a[0] == b[0] && LexLe(a[1..], b[1..]))))
  }

  lemma LexLeTotal(a: string, b: string)
    ensures LexLe(a, b) || LexLe(b, a)
  {
  }

  lemma LexLeTransitive(a: string, b: string, c: string)
    requires LexLe(a, b) && LexLe(b, c)
    ensures LexLe(a, c)
  {
  }

  lemma LexLeAntisymmetric(a: string, b: string)
    requires LexLe(a, b) && LexLe(b, a)
    ensures a == b
  {
  }
}
