/** The parameters the two booking reports of pplan/admin.py derive from
    their filters: the 18-month window of the month report, the single month
    of the project report (with its filter values parsed the way int()
    parses them), and the sorted, duplicate-free list of project names. */
module ReportParams {
  import opened Dates
  import opened Results

  /** MonthBookingAdmin.COLUMNS: months shown by the month report. */
  const Columns := 18

  /** The month report's window: 18 consecutive months from January of the
      filtered year, or else from six months before the current month. */
  function MonthList(year: Option<int>, today: Date): (ml: seq<Month>)
    ensures |ml| == Columns
    ensures year.Some? ==> ml[0] == Month(year.value, 1)
    ensures year.None? ==> Index(ml[0]) == Index(MonthOf(today)) - (Columns - 12)
    ensures forall i :: 0 <= i < |ml| ==> Index(ml[i]) == Index(ml[0]) + i && 1 <= ml[i].month <= 12
  {
    var from := if year.Some? then Month(year.value, 1) else ShiftMonths(MonthOf(today), -(Columns - 12));
    assert Index(ShiftMonths(from, 0)) == Index(from);
    seq(Columns, i requires 0 <= i < Columns => ShiftMonths(from, i))
  }

  /** Months listed at different positions are different months. */
  predicate Consecutive(ml: seq<Month>) {
    forall i :: 0 <= i < |ml| ==> Index(ml[i]) == Index(ml[0]) + i && 1 <= ml[i].month <= 12
  }

  /** Without a year filter the current month is the seventh column, so the
      window shows six months back and eleven ahead; with one it is the
      calendar year plus the first half of the next. */
  lemma MonthListPlacesToday(year: Option<int>, today: Date)
    requires 1 <= today.month <= 12
    ensures year.None? ==> MonthList(year, today)[6] == MonthOf(today)
    ensures year.Some? ==>
      MonthList(year, today)[11] == Month(year.value, 12) && MonthList(year, today)[17] == Month(year.value + 1, 6)
  {
    var ml := MonthList(year, today);
    if year.None? {
      IndexInjective(ml[6], MonthOf(today));
    } else {
      IndexInjective(ml[11], Month(year.value, 12));
      IndexInjective(ml[17], Month(year.value + 1, 6));
    }
  }

  /** A month falls within month__range=(ml[0], ml[-1]) of a consecutive
      list exactly when it is one of the listed months. */
  lemma WindowIsListed(ml: seq<Month>, m: Month)
    requires |ml| > 0 && Consecutive(ml) && 1 <= m.month <= 12
    ensures Index(ml[0]) <= Index(m) <= Index(ml[|ml| - 1]) <==> m in ml
  {
    if Index(ml[0]) <= Index(m) <= Index(ml[|ml| - 1]) {
      var i := Index(m) - Index(ml[0]);
      IndexInjective(ml[i], m);
    }
  }

  /** A consecutive month list has no repeated month. */
  lemma ConsecutiveDistinct(ml: seq<Month>)
    requires Consecutive(ml)
    ensures forall i, j :: 0 <= i < j < |ml| ==> ml[i] != ml[j]
  {
  }

  // ---------------------------------------------------------------------------
  // int() on a filter value

  /** The whitespace characters beyond ASCII (str.isspace), as of Unicode 15.0. */
  const WideSpaces: set<int> := {
    0x85, 0xA0, 0x1680, 0x2000, 0x2001, 0x2002, 0x2003, 0x2004,
    0x2005, 0x2006, 0x2007, 0x2008, 0x2009, 0x200A, 0x2028, 0x2029,
    0x202F, 0x205F, 0x3000
  }

  /** The number of runs of ten decimal digits (Unicode general category
      Nd) beyond ASCII, as of Unicode 15.0. */
  const DigitRuns := 67

  /** The code point of the zero of run j; each run holds the digits zero
      to nine in order (unicodedata.decimal). */
  function RunZero(j: nat): int
    requires j < DigitRuns
  {
    if j == 0 then 0x660
    else if j == 1 then 0x6F0
    else if j == 2 then 0x7C0
    else if j == 3 then 0x966
    else if j == 4 then 0x9E6
    else if j == 5 then 0xA66
    else if j == 6 then 0xAE6
    else if j == 7 then 0xB66
    else if j == 8 then 0xBE6
    else if j == 9 then 0xC66
    else if j == 10 then 0xCE6
    else if j == 11 then 0xD66
    else if j == 12 then 0xDE6
    else if j == 13 then 0xE50
    else if j == 14 then 0xED0
    else if j == 15 then 0xF20
    else if j == 16 then 0x1040
    else if j == 17 then 0x1090
    else if j == 18 then 0x17E0
    else if j == 19 then 0x1810
    else if j == 20 then 0x1946
    else if j == 21 then 0x19D0
    else if j == 22 then 0x1A80
    else if j == 23 then 0x1A90
    else if j == 24 then 0x1B50
    else if j == 25 then 0x1BB0
    else if j == 26 then 0x1C40
    else if j == 27 then 0x1C50
    else if j == 28 then 0xA620
    else if j == 29 then 0xA8D0
    else if j == 30 then 0xA900
    else if j == 31 then 0xA9D0
    else if j == 32 then 0xA9F0
    else if j == 33 then 0xAA50
    else if j == 34 then 0xABF0
    else if j == 35 then 0xFF10
    else if j == 36 then 0x104A0
    else if j == 37 then 0x10D30
    else if j == 38 then 0x11066
    else if j == 39 then 0x110F0
    else if j == 40 then 0x11136
    else if j == 41 then 0x111D0
    else if j == 42 then 0x112F0
    else if j == 43 then 0x11450
    else if j == 44 then 0x114D0
    else if j == 45 then 0x11650
    else if j == 46 then 0x116C0
    else if j == 47 then 0x11730
    else if j == 48 then 0x118E0
    else if j == 49 then 0x11950
    else if j == 50 then 0x11C50
    else if j == 51 then 0x11D50
    else if j == 52 then 0x11DA0
    else if j == 53 then 0x11F50
    else if j == 54 then 0x16A60
    else if j == 55 then 0x16AC0
    else if j == 56 then 0x16B50
    else if j == 57 then 0x1D7CE
    else if j == 58 then 0x1D7D8
    else if j == 59 then 0x1D7E2
    else if j == 60 then 0x1D7EC
    else if j == 61 then 0x1D7F6
    else if j == 62 then 0x1E140
    else if j == 63 then 0x1E2F0
    else if j == 64 then 0x1E4F0
    else if j == 65 then 0x1E950
    else if j == 66 then 0x1FBF0
    else 0x1FBF0
  }

  /** The value of code point c as a digit of run j or a later run. */
  function DecimalFrom(c: int, j: nat): (d: Option<int>)
    requires j <= DigitRuns
    ensures d.Some? ==> 0 <= d.value <= 9
    decreases DigitRuns - j
  {
    if j == DigitRuns then None
    else if RunZero(j) <= c < RunZero(j) + 10 then Some(c - RunZero(j))
    else DecimalFrom(c, j + 1)
  }

  /** The character int() parses in place of c, since it first converts
      the text to ASCII: an ASCII character stays as it is, other whitespace
      becomes a blank, a decimal digit of another script becomes the ASCII
      digit of its value, and anything else becomes '?', which no number
      contains. */
  function ToAscii(c: char): (a: char)
    ensures a as int < 127
    ensures c as int < 127 ==> a == c
  {
    if c as int < 127 then c
    else if c as int in WideSpaces then ' '
    else match DecimalFrom(c as int, 0)
      case Some(d) => ('0' as int + d) as char
      case None => '?'
  }

  /** The whitespace int() skips around a number (Py_ISSPACE). */
  predicate IsBlank(c: char) {
    c == ' ' || '\t' <= c <= '\r'
  }

  predicate IsDigit(c: char) {
    '0' <= c <= '9'
  }

  predicate AllDigits(s: string) {
    forall i :: 0 <= i < |s| ==> IsDigit(s[i])
  }

  /** A character that can be part of no number: neither a decimal digit of
      any script, a sign, an underscore nor whitespace. */
  predicate Foreign(c: char) {
    var a := ToAscii(c);
    !(IsDigit(a) || a == '+' || a == '-' || a == '_' || IsBlank(a))
  }

  /** t without its leading blanks. */
  function TrimLeft(t: string): (b: string)
    ensures |b| <= |t| && b == t[|t| - |b|..]
    ensures |b| > 0 ==> !IsBlank(b[0])
    ensures forall i :: 0 <= i < |t| - |b| ==> IsBlank(t[i])
  {
    if |t| > 0 && IsBlank(t[0]) then TrimLeft(t[1..]) else t
  }

  /** t without its trailing blanks. */
  function TrimRight(t: string): (b: string)
    ensures |b| <= |t| && b == t[..|b|]
    ensures |b| > 0 ==> !IsBlank(b[|b| - 1])
    ensures forall i :: |b| <= i < |t| ==> IsBlank(t[i])
  {
    if |t| > 0 && IsBlank(t[|t| - 1]) then TrimRight(t[..|t| - 1]) else t
  }

  /** ASCII digits, with single underscores allowed between two of them. */
  predicate Grouped(d: string) {
    && |d| > 0 && IsDigit(d[0]) && IsDigit(d[|d| - 1])
    && (forall i :: 0 <= i < |d| ==> IsDigit(d[i]) || d[i] == '_')
    && (forall i :: 0 <= i < |d| - 1 ==> d[i] == '_' ==> IsDigit(d[i + 1]))
  }

  /** The number the digits of d spell; underscores are skipped. */
  function GroupedValue(d: string): nat {
    if |d| == 0 then 0
    else if IsDigit(d[|d| - 1]) then GroupedValue(d[..|d| - 1]) * 10 + (d[|d| - 1] as int - '0' as int)
    else GroupedValue(d[..|d| - 1])
  }

  /** The number of digits in d; underscores do not count. */
  function DigitCount(d: string): nat {
    if |d| == 0 then 0 else DigitCount(d[..|d| - 1]) + (if IsDigit(d[|d| - 1]) then 1 else 0)
  }

  /** sys.int_info.default_max_str_digits: int() refuses a decimal string of
      more digits than this with ValueError. */
  const MaxStrDigits := 4300

  /** int() on text already converted to ASCII: blanks, an optional sign,
      grouped digits and blanks; anything else raises ValueError, modelled
      as None. */
  function ParseAscii(t: string): Option<int> {
    ParseSigned(TrimRight(TrimLeft(t)))
  }

  /** An optional sign followed by grouped digits. */
  function ParseSigned(b: string): Option<int> {
    if |b| > 0 && b[0] == '-' then
      match ParseDigits(b[1..])
      case Some(v) => Some(-v)
      case None => None
    else if |b| > 0 && b[0] == '+' then ParseDigits(b[1..])
    else ParseDigits(b)
  }

  /** Grouped digits, no more of them than int() converts. */
  function ParseDigits(d: string): (v: Option<int>)
    ensures v.Some? ==> v.value >= 0
  {
    if Grouped(d) && DigitCount(d) <= MaxStrDigits then Some(GroupedValue(d)) else None
  }

  /** int(s) for a filter value. */
  function ParseInt(s: string): Option<int> {
    ParseAscii(AsciiText(s))
  }

  function AsciiText(s: string): (t: string)
    ensures |t| == |s| && forall i :: 0 <= i < |s| ==> t[i] == ToAscii(s[i])
  {
    seq(|s|, i requires 0 <= i < |s| => ToAscii(s[i]))
  }

  /** The decimal digits of a natural number, most significant first. */
  function Digits(n: nat): (s: string)
    ensures |s| > 0 && AllDigits(s)
  {
    var d := ['0' + (n % 10) as char];
    if n < 10 then d else Digits(n / 10) + d
  }

  function Abs(n: int): nat {
    if n < 0 then -n else n
  }

  /** str(n). */
  function DecimalString(n: int): string {
    if n < 0 then "-" + Digits(-n) else Digits(n)
  }

  lemma {:induction false} DigitsRoundTrip(n: nat)
    ensures GroupedValue(Digits(n)) == n && DigitCount(Digits(n)) == |Digits(n)|
  {
    var s := Digits(n);
    if n >= 10 {
      DigitsRoundTrip(n / 10);
      assert s[..|s| - 1] == Digits(n / 10);
    }
  }

  /** A number below 10^k has at most k + 1 digits. */
  lemma {:induction false} DigitsFew(n: nat, b: nat, k: nat)
    requires n < b && b == Pow10(k)
    ensures |Digits(n)| <= k + 1
  {
    if n >= 10 {
      DigitsFew(n / 10, Pow10(k - 1), k - 1);
    }
  }

  function Pow10(k: nat): (p: nat)
    ensures p >= 1
  {
    if k == 0 then 1 else 10 * Pow10(k - 1)
  }

  /** int(str(n)) == n for every number int() does not refuse as too long. */
  lemma ParseIntRoundTrip(n: int)
    requires |Digits(Abs(n))| <= MaxStrDigits
    ensures ParseInt(DecimalString(n)) == Some(n)
  {
    var d := Digits(Abs(n));
    DigitsRoundTrip(Abs(n));
    if n < 0 {
      AsciiTextOfAscii("-" + d);
      ParseAsciiMinus(d);
    } else {
      AsciiTextOfAscii(d);
      ParseAsciiPlain(d);
    }
  }

  /** Unsigned digits within the limit parse to their value. */
  lemma ParseAsciiPlain(d: string)
    requires 0 < |d| <= MaxStrDigits && AllDigits(d)
    ensures ParseAscii(d) == Some(GroupedValue(d))
  {
    DigitCountAll(d);
    assert ParseDigits(d) == Some(GroupedValue(d)) by {
      DigitsGrouped(d);
    }
    Untrimmed(d);
  }

  /** A minus sign and digits within the limit parse to the negated value. */
  lemma ParseAsciiMinus(d: string)
    requires 0 < |d| <= MaxStrDigits && AllDigits(d)
    ensures ParseAscii("-" + d) == Some(-(GroupedValue(d) as int))
  {
    DigitCountAll(d);
    var t := "-" + d;
    assert t[0] == '-' && t[1..] == d;
    assert ParseDigits(d) == Some(GroupedValue(d)) by {
      DigitsGrouped(d);
    }
    Untrimmed(t);
  }

  /** Without underscores every character is a digit to count. */
  lemma {:induction false} DigitCountAll(d: string)
    requires AllDigits(d)
    ensures DigitCount(d) == |d|
  {
    if |d| > 0 {
      DigitCountAll(d[..|d| - 1]);
    }
  }

  /** ASCII text reaches int() as it is. */
  lemma AsciiTextOfAscii(s: string)
    requires forall i :: 0 <= i < |s| ==> s[i] as int < 127
    ensures AsciiText(s) == s
  {
  }

  lemma DigitsGrouped(d: string)
    requires |d| > 0 && AllDigits(d)
    ensures Grouped(d)
  {
  }

  /** Text that neither starts nor ends with a blank is not trimmed. */
  lemma Untrimmed(t: string)
    requires |t| > 0 && !IsBlank(t[0]) && !IsBlank(t[|t| - 1])
    ensures TrimRight(TrimLeft(t)) == t
  {
  }

  /** A character that no number contains, or the absence of any decimal
      digit, makes int() raise ValueError. */
  lemma ParseIntRejects(s: string)
    ensures (exists i :: 0 <= i < |s| && Foreign(s[i])) ==> ParseInt(s).None?
    ensures (forall i :: 0 <= i < |s| ==> !IsDigit(ToAscii(s[i]))) ==> ParseInt(s).None?
  {
    var t := AsciiText(s);
    if i :| 0 <= i < |s| && Foreign(s[i]) {
      StrayRejected(t, i);
    }
    if ParseInt(s).Some? {
      var k := ParsedDigit(t);
      assert IsDigit(ToAscii(s[k]));
    }
  }

  /** A character that is no digit, sign, underscore or blank makes the
      ASCII text unparsable. */
  lemma StrayRejected(t: string, i: int)
    requires 0 <= i < |t|
    requires !(IsDigit(t[i]) || t[i] == '+' || t[i] == '-' || t[i] == '_' || IsBlank(t[i]))
    ensures ParseAscii(t).None?
  {
    var l := TrimLeft(t);
    var b := TrimRight(l);
    var k := i - (|t| - |l|);
    assert 0 <= k < |b| && b[k] == t[i];
    if |b| > 0 && (b[0] == '-' || b[0] == '+') {
      assert b[1..][k - 1] == b[k];
    }
  }

  /** Text that parses holds a digit. */
  lemma ParsedDigit(t: string) returns (k: int)
    requires ParseAscii(t).Some?
    ensures 0 <= k < |t| && IsDigit(t[k])
  {
    var l := TrimLeft(t);
    var b := TrimRight(l);
    var j := if |b| > 0 && (b[0] == '-' || b[0] == '+') then 1 else 0;
    assert IsDigit(b[j]);
    k := (|t| - |l|) + j;
    assert b[j] == l[j] == t[k];
  }

  /** Digits of another script are read by their values. */
  lemma ParseIntOtherScript()
    ensures ParseInt("\U{662}\U{660}\U{662}\U{660}") == Some(2020)
  {
    var s := "\U{662}\U{660}\U{662}\U{660}";
    ArabicIndicDigit(2);
    ArabicIndicDigit(0);
    assert AsciiText(s) == "2020";
    TwentyTwenty();
  }

  /** The Arabic-Indic digits U+0660 to U+0669 are read as 0 to 9. */
  lemma ArabicIndicDigit(d: int)
    requires 0 <= d <= 9
    ensures ToAscii((0x660 + d) as char) == ('0' as int + d) as char
  {
    var c := (0x660 + d) as char;
    assert c as int !in WideSpaces;
  }

  lemma TwentyTwenty()
    ensures ParseAscii("2020") == Some(2020)
  {
    assert "2020" == Digits(2020);
    DigitsRoundTrip(2020);
    ParseAsciiPlain("2020");
  }

  /** Whitespace of any script around a filter value does not change what
      int() reads. */
  lemma ParseIntSkipsBlanks(p: string, s: string, q: string)
    requires forall i :: 0 <= i < |p| ==> IsBlank(ToAscii(p[i]))
    requires forall i :: 0 <= i < |q| ==> IsBlank(ToAscii(q[i]))
    ensures ParseInt(p + s + q) == ParseInt(s)
  {
    AsciiTextAppend(p + s, q);
    AsciiTextAppend(p, s);
    BlankText(p);
    BlankText(q);
    ParseAsciiSkipsBlanks(AsciiText(p), AsciiText(s), AsciiText(q));
  }

  /** int() converts a text character by character. */
  lemma AsciiTextAppend(x: string, y: string)
    ensures AsciiText(x + y) == AsciiText(x) + AsciiText(y)
  {
  }

  /** Whitespace of any script becomes ASCII blanks. */
  lemma BlankText(p: string)
    requires forall i :: 0 <= i < |p| ==> IsBlank(ToAscii(p[i]))
    ensures forall i :: 0 <= i < |p| ==> IsBlank(AsciiText(p)[i])
  {
  }

  /** Blanks around the text do not change what int() reads. */
  lemma ParseAsciiSkipsBlanks(tp: string, ts: string, tq: string)
    requires forall i :: 0 <= i < |tp| ==> IsBlank(tp[i])
    requires forall i :: 0 <= i < |tq| ==> IsBlank(tq[i])
    ensures ParseAscii(tp + ts + tq) == ParseAscii(ts)
  {
    TrimmedSkipsBlanks(tp, ts, tq);
  }

  lemma TrimmedSkipsBlanks(tp: string, ts: string, tq: string)
    requires forall i :: 0 <= i < |tp| ==> IsBlank(tp[i])
    requires forall i :: 0 <= i < |tq| ==> IsBlank(tq[i])
    ensures TrimRight(TrimLeft(tp + ts + tq)) == TrimRight(TrimLeft(ts))
  {
    assert tp + ts + tq == tp + (ts + tq);
    TrimLeftBlanks(tp, ts + tq);
    if |TrimLeft(ts)| > 0 {
      TrimLeftAppend(ts, tq);
      TrimRightBlanks(TrimLeft(ts), tq);
    } else {
      AllBlankTrimmed(ts + tq);
    }
  }

  /** Leading blanks are dropped whatever follows them. */
  lemma {:induction false} TrimLeftBlanks(p: string, x: string)
    requires forall i :: 0 <= i < |p| ==> IsBlank(p[i])
    ensures TrimLeft(p + x) == TrimLeft(x)
  {
    if |p| > 0 {
      assert (p + x)[1..] == p[1..] + x;
      TrimLeftBlanks(p[1..], x);
    } else {
      assert p + x == x;
    }
  }

  /** Trailing blanks are dropped whatever precedes them. */
  lemma {:induction false} TrimRightBlanks(x: string, q: string)
    requires forall i :: 0 <= i < |q| ==> IsBlank(q[i])
    ensures TrimRight(x + q) == TrimRight(x)
  {
    if |q| > 0 {
      assert (x + q)[..|x + q| - 1] == x + q[..|q| - 1];
      TrimRightBlanks(x, q[..|q| - 1]);
    } else {
      assert x + q == x;
    }
  }

  /** Dropping the leading blanks of a text that is not all blank leaves
      what follows it in place. */
  lemma {:induction false} TrimLeftAppend(x: string, q: string)
    requires |TrimLeft(x)| > 0
    ensures TrimLeft(x + q) == TrimLeft(x) + q
  {
    if IsBlank(x[0]) {
      assert (x + q)[1..] == x[1..] + q;
      TrimLeftAppend(x[1..], q);
    }
  }

  /** A text of blanks trims to nothing. */
  lemma AllBlankTrimmed(x: string)
    requires forall i :: 0 <= i < |x| ==> IsBlank(x[i])
    ensures TrimLeft(x) == ""
  {
  }

  /** A single underscore between two runs of digits is skipped. */
  lemma ParseIntGrouping(a: string, b: string)
    requires |a| > 0 && |b| > 0 && AllDigits(a) && AllDigits(b) && |a| + |b| <= MaxStrDigits
    ensures ParseInt(a + "_" + b) == ParseInt(a + b) == Some(GroupedValue(a + b))
  {
    ParseIntJoined(a, b);
    ParseIntDigits(a + b);
  }

  /** Digits joined by an underscore, read through int(). */
  lemma ParseIntJoined(a: string, b: string)
    requires |a| > 0 && |b| > 0 && AllDigits(a) && AllDigits(b) && |a| + |b| <= MaxStrDigits
    ensures ParseInt(a + "_" + b) == Some(GroupedValue(a + b))
  {
    JoinedAscii(a, b);
    JoinedDigits(a, b);
  }

  /** int() sees digits joined by an underscore as they are. */
  lemma JoinedAscii(a: string, b: string)
    requires AllDigits(a) && AllDigits(b)
    ensures AsciiText(a + "_" + b) == a + "_" + b
  {
    var g := a + "_" + b;
    assert forall i :: 0 <= i < |g| ==> g[i] as int < 127 by {
      assert forall i :: 0 <= i < |g| ==> (i < |a| ==> g[i] == a[i]) && (i > |a| ==> g[i] == b[i - |a| - 1]);
    }
    AsciiTextOfAscii(g);
  }

  /** Plain ASCII digits, read through int(). */
  lemma ParseIntDigits(d: string)
    requires 0 < |d| <= MaxStrDigits && AllDigits(d)
    ensures ParseInt(d) == Some(GroupedValue(d))
  {
    AsciiTextOfAscii(d);
    ParseAsciiPlain(d);
  }

  /** Digits joined by an underscore parse as the digits put together. */
  lemma JoinedDigits(a: string, b: string)
    requires |a| > 0 && |b| > 0 && AllDigits(a) && AllDigits(b) && |a| + |b| <= MaxStrDigits
    ensures ParseAscii(a + "_" + b) == Some(GroupedValue(a + b))
  {
    JoinedGrouped(a, b);
    JoinedValue(a, b);
    Untrimmed(a + "_" + b);
  }

  /** Two runs of digits with one underscore between them are grouped. */
  lemma JoinedGrouped(a: string, b: string)
    requires |a| > 0 && |b| > 0 && AllDigits(a) && AllDigits(b)
    ensures Grouped(a + "_" + b)
  {
    var g := a + "_" + b;
    assert forall i :: 0 <= i < |g| ==> (i < |a| ==> g[i] == a[i]) && (i > |a| ==> g[i] == b[i - |a| - 1]);
  }

  /** The underscore adds nothing to the value or the digit count. */
  lemma JoinedValue(a: string, b: string)
    requires AllDigits(a) && AllDigits(b)
    ensures GroupedValue(a + "_" + b) == GroupedValue(a + b)
    ensures DigitCount(a + "_" + b) == |a| + |b|
  {
    assert a + "_" + b == (a + "_") + b;
    GroupedValueAppend(a + "_", b);
    GroupedValueAppend(a, b);
    assert (a + "_")[..|a|] == a;
    DigitCountAppend(a + "_", b);
    DigitCountAll(a);
    DigitCountAll(b);
  }

  /** The value of two strings of digits put together. */
  lemma {:induction false} GroupedValueAppend(x: string, y: string)
    ensures GroupedValue(x + y) == GroupedValue(x) * Pow10(DigitCount(y)) + GroupedValue(y)
    decreases |y|
  {
    if |y| > 0 {
      var y' := y[..|y| - 1];
      var c := y[|y| - 1];
      assert (x + y)[..|x + y| - 1] == x + y' && (x + y)[|x + y| - 1] == c;
      GroupedValueAppend(x, y');
      if IsDigit(c) {
        ShiftDigit(GroupedValue(x), Pow10(DigitCount(y')), GroupedValue(y'), c as int - '0' as int);
      }
    } else {
      assert x + y == x;
    }
  }

  lemma ShiftDigit(v: int, p: int, g: int, e: int)
    ensures (v * p + g) * 10 + e == v * (p * 10) + (g * 10 + e)
  {
  }

  lemma {:induction false} DigitCountAppend(x: string, y: string)
    ensures DigitCount(x + y) == DigitCount(x) + DigitCount(y)
    decreases |y|
  {
    if |y| > 0 {
      assert (x + y)[..|x + y| - 1] == x + y[..|y| - 1] && (x + y)[|x + y| - 1] == y[|y| - 1];
      DigitCountAppend(x, y[..|y| - 1]);
    } else {
      assert x + y == x;
    }
  }

  /** Two underscores in a row make int() raise ValueError. */
  lemma ParseIntDoubleUnderscore(s: string, i: int)
    requires 0 <= i < |s| - 1 && ToAscii(s[i]) == '_' && ToAscii(s[i + 1]) == '_'
    ensures ParseInt(s).None?
  {
    DoubleUnderscoreRejected(AsciiText(s), i);
  }

  lemma DoubleUnderscoreRejected(t: string, i: int)
    requires 0 <= i < |t| - 1 && t[i] == '_' && t[i + 1] == '_'
    ensures ParseAscii(t).None?
  {
    var l := TrimLeft(t);
    var b := TrimRight(l);
    var k := i - (|t| - |l|);
    assert 0 <= k && k + 1 < |b| && b[k] == '_' && b[k + 1] == '_';
    if |b| > 0 && (b[0] == '-' || b[0] == '+') {
      assert b[1..][k - 1] == '_' && b[1..][k] == '_';
    }
  }

  // ---------------------------------------------------------------------------
  // The month of the project report

  /** The range of a C int, which date.replace takes its arguments in. */
  const IntMin := -0x8000_0000
  const IntMax := 0x7FFF_FFFF

  /** The exception that escapes the month selection. */
  datatype ParamError = OverflowError

  /** A filter value that int() reads as a number outside the C int range,
      which date.replace rejects with OverflowError. */
  predicate Overflows(value: Option<string>) {
    value.Some? && ParseInt(value.value).Some? && !(IntMin <= ParseInt(value.value).value <= IntMax)
  }

  /** A filter value that int() reads as a number in lo..hi. */
  predicate Usable(value: Option<string>, lo: int, hi: int) {
    value.Some? && ParseInt(value.value).Some? && lo <= ParseInt(value.value).value <= hi
  }

  /** One `month.replace(field=int(value))` inside `except (TypeError,
      ValueError): pass`: the new field value, None when the field stays (a
      missing value is a TypeError, a value int() rejects or outside lo..hi a
      ValueError), or OverflowError, which nothing catches. */
  function Replacement(value: Option<string>, lo: int, hi: int): (r: Result<Option<int>, ParamError>)
    requires IntMin <= lo <= hi <= IntMax
    ensures r.Failure? <==> Overflows(value)
    ensures r.Success? ==> (r.value.Some? <==> Usable(value, lo, hi))
    ensures r.Success? && r.value.Some? ==> ParseInt(value.value) == Some(r.value.value)
  {
    if value.None? then Success(None)
    else match ParseInt(value.value)
      case None => Success(None)
      case Some(v) =>
        if v < IntMin || IntMax < v then Failure(OverflowError)
        else if lo <= v <= hi then Success(Some(v))
        else Success(None)
  }

  /** ProjectBookingAdmin's month: the current month, with the year
      replaced when the year filter is usable as a year (1..9999), and then
      the month replaced when the month filter is usable as a month (1..12).
      A value beyond the C int range raises OverflowError. */
  function SelectedMonth(year: Option<string>, monthNum: Option<string>, today: Date): (r: Result<Month, ParamError>)
    requires 1 <= today.month <= 12
    ensures r.Failure? <==> Overflows(year) || Overflows(monthNum)
    ensures r.Success? ==> 1 <= r.value.month <= 12
  {
    var m0 := MonthOf(today);
    match Replacement(year, 1, 9999)
    case Failure(e) => Failure(e)
    case Success(y) =>
      var m1 := if y.Some? then m0.(year := y.value) else m0;
      match Replacement(monthNum, 1, 12)
      case Failure(e) => Failure(e)
      case Success(n) => Success(if n.Some? then m1.(month := n.value) else m1)
  }

  /** Filter values rendered from a month select that month. */
  lemma SelectedMonthOfRendered(y: int, mo: int, today: Date)
    requires 1 <= y <= 9999 && 1 <= mo <= 12 && 1 <= today.month <= 12
    ensures SelectedMonth(Some(DecimalString(y)), Some(DecimalString(mo)), today) == Success(Month(y, mo))
  {
    RenderedField(y, 1, 9999, 4);
    RenderedField(mo, 1, 12, 2);
  }

  /** A rendered value within lo..hi replaces its field. */
  lemma RenderedField(v: int, lo: int, hi: int, k: nat)
    requires IntMin <= lo <= v <= hi <= IntMax && 0 <= v < Pow10(k) && k < MaxStrDigits
    ensures Replacement(Some(DecimalString(v)), lo, hi) == Success(Some(v))
  {
    DigitsFew(v, Pow10(k), k);
    ParseIntRoundTrip(v);
  }

  /** Each filter only ever changes its own field: a usable filter sets it,
      and without one the field is the current month's. */
  lemma SelectedMonthFallsBack(year: Option<string>, monthNum: Option<string>, today: Date)
    requires 1 <= today.month <= 12
    ensures var r := SelectedMonth(year, monthNum, today);
      r.Success? ==> r.value.year == if Usable(year, 1, 9999) then ParseInt(year.value).value else today.year
    ensures var r := SelectedMonth(year, monthNum, today);
      r.Success? ==> r.value.month == if Usable(monthNum, 1, 12) then ParseInt(monthNum.value).value else today.month
  {
  }

  /** A year filter one beyond the C int range escapes as OverflowError,
      while one at the end of the range falls back to the current year. */
  lemma SelectedMonthOverflow(today: Date)
    requires 1 <= today.month <= 12
    ensures SelectedMonth(Some(DecimalString(IntMax + 1)), None, today) == Failure(OverflowError)
    ensures SelectedMonth(Some(DecimalString(IntMax)), None, today) == Success(MonthOf(today))
  {
    DigitsFew(IntMax + 1, Pow10(10), 10);
    DigitsFew(IntMax, Pow10(10), 10);
    ParseIntRoundTrip(IntMax + 1);
    ParseIntRoundTrip(IntMax);
  }

  // ---------------------------------------------------------------------------
  // sorted(set(names))

  /** Python's ordering of strings: by code point, a proper prefix first. */
  predicate Less(a: string, b: string)
    decreases |a|
  {
    if |b| == 0 then false
    else if |a| == 0 then true
    else if a[0] != b[0] then a[0] < b[0]
    else Less(a[1..], b[1..])
  }

  lemma {:induction false} LessIrreflexive(a: string)
    ensures !Less(a, a)
    decreases |a|
  {
    if |a| > 0 {
      LessIrreflexive(a[1..]);
    }
  }

  lemma {:induction false} LessTransitive(a: string, b: string, c: string)
    requires Less(a, b) && Less(b, c)
    ensures Less(a, c)
    decreases |a|
  {
    if |a| > 0 && a[0] == b[0] && b[0] == c[0] {
      LessTransitive(a[1..], b[1..], c[1..]);
    }
  }

  lemma {:induction false} LessTotal(a: string, b: string)
    requires a != b
    ensures Less(a, b) || Less(b, a)
    decreases |a|
  {
    if |a| > 0 && |b| > 0 && a[0] == b[0] {
      assert a == [a[0]] + a[1..] && b == [b[0]] + b[1..];
      LessTotal(a[1..], b[1..]);
    }
  }

  predicate StrictlySorted(s: seq<string>) {
    forall i, j :: 0 <= i < j < |s| ==> Less(s[i], s[j])
  }

  /** Put x into a strictly sorted list, unless it is already there. */
  function Insert(s: seq<string>, x: string): seq<string> {
    if |s| == 0 then [x]
    else if s[0] == x then s
    else if Less(x, s[0]) then [x] + s
    else [s[0]] + Insert(s[1..], x)
  }

  lemma {:induction false} InsertSpec(s: seq<string>, x: string)
    requires StrictlySorted(s)
    ensures StrictlySorted(Insert(s, x))
    ensures forall y :: y in Insert(s, x) <==> y in s || y == x
  {
    if |s| > 0 && s[0] != x {
      if Less(x, s[0]) {
        forall j | 0 < j < |s|
          ensures Less(x, s[j])
        {
          LessTransitive(x, s[0], s[j]);
        }
      } else {
        LessTotal(x, s[0]);
        InsertSpec(s[1..], x);
        var r := Insert(s[1..], x);
        assert forall y :: y in s <==> y == s[0] || y in s[1..];
        assert forall k :: 0 <= k < |s[1..]| ==> Less(s[0], s[1..][k]);
        assert forall y :: y in s[1..] ==> Less(s[0], y);
      }
    }
  }

  /** sorted(set(xs)). */
  function SortedSet(xs: seq<string>): (r: seq<string>)
    ensures StrictlySorted(r)
    ensures forall y :: y in r <==> y in xs
  {
    if |xs| == 0 then []
    else
      var p := xs[..|xs| - 1];
      var r := SortedSet(p);
      InsertSpec(r, xs[|xs| - 1]);
      assert forall y :: y in xs <==> y in p || y == xs[|xs| - 1];
      Insert(r, xs[|xs| - 1])
  }

  /** A strictly sorted list repeats nothing. */
  lemma SortedIsDistinct(s: seq<string>)
    requires StrictlySorted(s)
    ensures forall i, j :: 0 <= i < j < |s| ==> s[i] != s[j]
  {
    forall i, j | 0 <= i < j < |s|
      ensures s[i] != s[j]
    {
      LessIrreflexive(s[i]);
    }
  }
}
