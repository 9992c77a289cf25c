/** `load_data`: the three column transformations applied to the CSV rows
    (final_report.py lines 50-65). */
module Loader {
  import opened Collections
  import opened Intake

  // ---------------------------------------------------------------------
  // Shelter names: re.sub(r'\([^)]*\)', '', name)
  // ---------------------------------------------------------------------

  /** Position of the first `c` in `s`. */
  function IndexOf(s: string, c: char): (k: nat)
    requires c in s
    ensures k < |s| && s[k] == c && c !in s[..k]
  {
    if s[0] == c then 0
    else
      var k := 1 + IndexOf(s[1..], c);
      assert s[..k] == [s[0]] + s[1..][..k - 1];
      k
  }

  /** Deletes every match of the pattern `\([^)]*\)`, scanning left to
      right as `re.sub` does: an opening parenthesis together with
      everything up to and including the first closing parenthesis after it.
      An opening parenthesis with no closing one after it cannot start a
      match and is kept. */
  function StripParens(s: string): string
    decreases |s|
  {
    if s == [] then []
    else if s[0] == '(' && ')' in s then StripParens(s[IndexOf(s, ')') + 1..])
    else [s[0]] + StripParens(s[1..])
  }

  /** No opening parenthesis comes before a closing one: no substring
      matches `\([^)]*\)`. */
  ghost predicate NoParenPair(s: string) {
    forall i, j :: 0 <= i < j < |s| && s[i] == '(' ==> s[j] != ')'
  }

  /** `t` is `s` with some characters deleted, the rest kept in order. */
  ghost predicate IsSubsequence(t: string, s: string)
    decreases |s|
  {
    if t == [] then true
    else if s == [] then false
    else (t[0] == s[0] && IsSubsequence(t[1..], s[1..])) || IsSubsequence(t, s[1..])
  }

  /** A subsequence of a suffix is a subsequence of the whole string. */
  lemma {:induction false} SubsequenceOfSuffix(t: string, s: string, j: nat)
    requires j <= |s| && IsSubsequence(t, s[j..])
    ensures IsSubsequence(t, s)
    decreases j
  {
    if j > 0 && t != [] {
      assert s[1..][j - 1..] == s[j..];
      SubsequenceOfSuffix(t, s[1..], j - 1);
    }
  }

  /** A subsequence is no longer, and every character it has is one of the
      string's. */
  lemma {:induction false} SubsequenceBounds(t: string, s: string)
    requires IsSubsequence(t, s)
    ensures |t| <= |s|
    ensures forall c :: c in t ==> c in s
    decreases |s|
  {
    if t != [] {
      if t[0] == s[0] && IsSubsequence(t[1..], s[1..]) {
        SubsequenceBounds(t[1..], s[1..]);
        assert forall c :: c in t ==> c == t[0] || c in t[1..];
      } else {
        SubsequenceBounds(t, s[1..]);
      }
      assert forall c :: c in s[1..] ==> c in s;
    }
  }

  /** Stripping only deletes characters: the result is the name with some
      characters removed and the others kept in their order, so it is no
      longer and uses only the name's characters. */
  lemma {:induction false} StripParensDeletes(s: string)
    ensures IsSubsequence(StripParens(s), s)
    ensures |StripParens(s)| <= |s|
    ensures forall c :: c in StripParens(s) ==> c in s
    decreases |s|
  {
    if s != [] {
      if s[0] == '(' && ')' in s {
        var k := IndexOf(s, ')');
        StripParensDeletes(s[k + 1..]);
        SubsequenceOfSuffix(StripParens(s), s, k + 1);
      } else {
        StripParensDeletes(s[1..]);
        assert StripParens(s) == [s[0]] + StripParens(s[1..]);
      }
    }
    SubsequenceBounds(StripParens(s), s);
  }

  lemma NoParenPairTail(s: string)
    requires s != [] && NoParenPair(s)
    ensures NoParenPair(s[1..])
  {
    forall i, j | 0 <= i < j < |s[1..]| && s[1..][i] == '('
      ensures s[1..][j] != ')'
    {
      assert s[1..][i] == s[i + 1] && s[1..][j] == s[j + 1];
    }
  }

  lemma NoParenPairCons(c: char, s: string)
    requires NoParenPair(s)
    requires c == '(' ==> ')' !in s
    ensures NoParenPair([c] + s)
  {
    var t := [c] + s;
    forall i, j | 0 <= i < j < |t| && t[i] == '(' ensures t[j] != ')' {
      assert t[j] == s[j - 1];
      if i > 0 { assert t[i] == s[i - 1]; }
    }
  }

  /** No match of the pattern survives: the result contains no opening
      parenthesis followed, anywhere later, by a closing one. */
  lemma {:induction false} StripParensLeavesNoMatch(s: string)
    ensures NoParenPair(StripParens(s))
    decreases |s|
  {
    if s != [] {
      if s[0] == '(' && ')' in s {
        StripParensLeavesNoMatch(s[IndexOf(s, ')') + 1..]);
      } else {
        StripParensLeavesNoMatch(s[1..]);
        StripParensDeletes(s[1..]);
        if s[0] == '(' {
          assert ')' !in s[1..];
        }
        NoParenPairCons(s[0], StripParens(s[1..]));
      }
    }
  }

  /** A string is left unchanged exactly when it holds no match. */
  lemma {:induction false} StripParensIdentity(s: string)
    ensures StripParens(s) == s <==> NoParenPair(s)
    decreases |s|
  {
    if s == [] {
    } else if NoParenPair(s) {
      if s[0] == '(' {
        assert ')' !in s by {
          forall j | 0 <= j < |s| ensures s[j] != ')' {
            if j > 0 { assert s[0] == '('; }
          }
        }
      }
      NoParenPairTail(s);
      StripParensIdentity(s[1..]);
      assert s == [s[0]] + s[1..];
    } else {
      StripParensShrinks(s);
    }
  }

  /** When some match exists, stripping makes the string strictly shorter. */
  lemma {:induction false} StripParensShrinks(s: string)
    requires !NoParenPair(s)
    ensures |StripParens(s)| < |s|
    decreases |s|
  {
    var i, j :| 0 <= i < j < |s| && s[i] == '(' && s[j] == ')';
    if s[0] == '(' {
      assert s[j] in s;
      var k := IndexOf(s, ')');
      StripParensDeletes(s[k + 1..]);
    } else {
      assert s[1..][i - 1] == '(' && s[1..][j - 1] == ')';
      StripParensShrinks(s[1..]);
    }
  }

  /** Stripping twice is stripping once. */
  lemma StripParensIdempotent(s: string)
    ensures StripParens(StripParens(s)) == StripParens(s)
  {
    StripParensLeavesNoMatch(s);
    StripParensIdentity(StripParens(s));
  }

  /** The leftmost match is removed and the scan goes on after it: text
      before the first opening parenthesis is kept, the parenthesis and
      everything up to the first closing one after it are deleted, and the
      rest of the name is stripped in turn. */
  lemma {:induction false} StripParensSplit(p: string, m: string, q: string)
    requires '(' !in p && ')' !in m
    ensures StripParens(p + "(" + m + ")" + q) == p + StripParens(q)
    decreases |p|
  {
    var s := p + "(" + m + ")" + q;
    if p == [] {
      assert s == "(" + m + ")" + q;
      assert s[|m| + 1] == ')' && ')' !in s[..|m| + 1] by {
        assert s[..|m| + 1] == "(" + m;
      }
      var k := IndexOf(s, ')');
      assert k == |m| + 1;
      assert s[k + 1..] == q;
    } else {
      assert s[0] == p[0] && s[1..] == p[1..] + "(" + m + ")" + q;
      assert p[0] != '(';
      StripParensSplit(p[1..], m, q);
      assert p == [p[0]] + p[1..];
    }
  }

  /** "A(b)C" becomes "AC": the text after a match is kept. */
  lemma StripParensKeepsTail()
    ensures StripParens("A(b)C") == "AC"
  {
    StripParensSplit("A", "b", "C");
    StripParensNoOpen("C");
  }

  /** A name without an opening parenthesis is kept as it is. */
  lemma StripParensNoOpen(s: string)
    requires '(' !in s
    ensures StripParens(s) == s
  {
    StripParensIdentity(s);
  }

  /** The name "Care(A)" becomes "Care". */
  lemma StripParensExample()
    ensures StripParens("Care(A)") == "Care"
  {
    var name := "Care(A)";
    assert IndexOf(name[4..], ')') == 2;
    assert StripParens(name[4..]) == StripParens([]);
    assert StripParens(name[3..]) == "e";
    assert StripParens(name[2..]) == "re";
    assert StripParens(name[1..]) == "are";
  }

  // ---------------------------------------------------------------------
  // Intake dates: pd.to_datetime(df['happenDt'], format='%Y%m%d')
  // ---------------------------------------------------------------------

  predicate IsDigit(c: char) {
    '0' <= c <= '9'
  }

  predicate AllDigits(s: string) {
    forall i :: 0 <= i < |s| ==> IsDigit(s[i])
  }

  /** The number written by a string of decimal digits. */
  function DecimalValue(s: string): (n: nat)
    requires AllDigits(s)
  {
    if s == [] then 0
    else 10 * DecimalValue(s[..|s| - 1]) + (s[|s| - 1] as int - '0' as int)
  }

  function Pow10(w: nat): (p: nat)
    ensures p >= 1
  {
    if w == 0 then 1 else 10 * Pow10(w - 1)
  }

  /** `n` written with exactly `w` decimal digits, zero-padded on the left. */
  function PadDigits(n: nat, w: nat): (s: string)
    ensures |s| == w && AllDigits(s)
  {
    if w == 0 then [] else PadDigits(n / 10, w - 1) + [('0' as int + n % 10) as char]
  }

  lemma {:induction false} DecimalOfPad(n: nat, w: nat)
    requires n < Pow10(w)
    ensures DecimalValue(PadDigits(n, w)) == n
  {
    if w > 0 {
      var s := PadDigits(n, w);
      var q, d := n / 10, n % 10;
      assert n == 10 * q + d && 0 <= d < 10;
      assert q < Pow10(w - 1);
      assert s == PadDigits(q, w - 1) + [('0' as int + d) as char];
      assert s[..w - 1] == PadDigits(q, w - 1);
      DecimalOfPad(q, w - 1);
      assert DecimalValue(s) == 10 * DecimalValue(s[..w - 1]) + d;
    }
  }

  lemma {:induction false} PadOfDecimal(s: string)
    requires AllDigits(s)
    ensures PadDigits(DecimalValue(s), |s|) == s
  {
    if s != [] {
      var init, d := s[..|s| - 1], s[|s| - 1] as int - '0' as int;
      assert AllDigits(init);
      PadOfDecimal(init);
      var n := DecimalValue(s);
      assert n == 10 * DecimalValue(init) + d && 0 <= d < 10;
      assert n / 10 == DecimalValue(init) && n % 10 == d;
      assert s == init + [s[|s| - 1]];
    }
  }

  /** Gregorian leap years. */
  predicate IsLeapYear(y: int) {
    y % 4 == 0 && (y % 100 != 0 || y % 400 == 0)
  }

  function DaysInMonth(y: int, m: int): (n: int)
    requires 1 <= m <= 12
    ensures 28 <= n <= 31
  {
    if m == 2 then (if IsLeapYear(y) then 29 else 28)
    else if m == 4 || m == 6 || m == 9 || m == 11 then 30
    else 31
  }

  /** A real calendar day. */
  predicate ValidDate(d: Date) {
    1 <= d.month <= 12 && 1 <= d.day <= DaysInMonth(d.year, d.month)
  }

  predicate DateBefore(a: Date, b: Date) {
    a.year < b.year || (a.year == b.year && (a.month < b.month || (a.month == b.month && a.day < b.day)))
  }

  /** pandas timestamps hold nanoseconds since 1970 in 64 bits, so
      `to_datetime` rejects calendar days outside 1677-09-22 .. 2262-04-11
      (the first and last whole days of that range). */
  const FirstTimestampDay := Date(1677, 9, 22)
  const LastTimestampDay := Date(2262, 4, 11)

  predicate InTimestampRange(d: Date) {
    !DateBefore(d, FirstTimestampDay) && !DateBefore(LastTimestampDay, d)
  }

  /** The date written in the YYYYMMDD digits of an 8-character string. */
  function DateOfDigits(s: string): Date
    requires |s| == 8 && AllDigits(s)
  {
    Date(DecimalValue(s[..4]), DecimalValue(s[4..6]), DecimalValue(s[6..]))
  }

  datatype LoadError = BadDate(text: string)

  /** Parses one `happenDt` value with format `%Y%m%d` (the basic
      calendar-date form of section 4.1.2.2 of ISO 8601:2004): eight digits
      that name a real Gregorian calendar day that pandas can represent.
      Anything else makes `to_datetime` raise. */
  function ParseDate(s: string): (r: Result<Date, LoadError>)
    ensures r.Success? ==> ValidDate(r.value) && InTimestampRange(r.value)
    ensures r.Success? ==> |s| == 8 && AllDigits(s) && r.value.year == DecimalValue(s[..4])
    ensures r.Failure? ==> r.error == BadDate(s)
  {
    if |s| == 8 && AllDigits(s) && ValidDate(DateOfDigits(s)) && InTimestampRange(DateOfDigits(s))
    then Success(DateOfDigits(s))
    else Failure(BadDate(s))
  }

  /** A date written as YYYYMMDD (the year needs four digits). */
  function FormatDate(d: Date): (s: string)
    requires 0 <= d.year < 10000 && 1 <= d.month <= 12 && 1 <= d.day <= 31
    ensures |s| == 8 && AllDigits(s)
  {
    PadDigits(d.year, 4) + PadDigits(d.month, 2) + PadDigits(d.day, 2)
  }

  lemma InRangeYear(d: Date)
    requires InTimestampRange(d)
    ensures 1677 <= d.year <= 2262
  {
  }

  /** Every representable calendar day, written as YYYYMMDD, parses back to
      itself. */
  lemma FormatThenParse(d: Date)
    requires ValidDate(d) && InTimestampRange(d)
    ensures ParseDate(FormatDate(d)) == Success(d)
  {
    var s := FormatDate(d);
    assert Pow10(4) == 10000 && Pow10(2) == 100;
    assert s[..4] == PadDigits(d.year, 4);
    assert s[4..6] == PadDigits(d.month, 2);
    assert s[6..] == PadDigits(d.day, 2);
    DecimalOfPad(d.year, 4);
    DecimalOfPad(d.month, 2);
    DecimalOfPad(d.day, 2);
  }

  /** Every accepted value is the YYYYMMDD writing of the date it parses
      to: parsing loses nothing. */
  lemma ParseThenFormat(s: string)
    requires ParseDate(s).Success?
    ensures FormatDate(ParseDate(s).value) == s
  {
    var d := ParseDate(s).value;
    assert d == DateOfDigits(s);
    InRangeYear(d);
    FormatOfDigits(s);
  }

  /** Eight digits naming a date are that date written back. */
  lemma FormatOfDigits(s: string)
    requires |s| == 8 && AllDigits(s)
    requires DecimalValue(s[..4]) < 10000 && 1 <= DecimalValue(s[4..6]) <= 12 && 1 <= DecimalValue(s[6..]) <= 31
    ensures FormatDate(DateOfDigits(s)) == s
  {
    var y, m, dd := s[..4], s[4..6], s[6..];
    assert AllDigits(y) && AllDigits(m) && AllDigits(dd);
    assert s == y + m + dd;
    PadsOfDecimals(y, m, dd);
  }

  lemma PadsOfDecimals(y: string, m: string, d: string)
    requires AllDigits(y) && AllDigits(m) && AllDigits(d)
    ensures PadDigits(DecimalValue(y), |y|) + PadDigits(DecimalValue(m), |m|) + PadDigits(DecimalValue(d), |d|) == y + m + d
  {
    PadOfDecimal(y);
    PadOfDecimal(m);
    PadOfDecimal(d);
  }

  // ---------------------------------------------------------------------
  // Outcome classes: df['processState'].replace({...})
  // ---------------------------------------------------------------------

  const NaturalDeath := "종료(자연사)"
  const Euthanasia := "종료(안락사)"
  const Returned := "종료(반환)"
  const Donated := "종료(기증)"
  const Adopted := "종료(입양)"
  const Released := "종료(방사)"
  const OtherClosed := "종료(기타)"
  const UnderCareState := "보호중"

  const Death := "Death"
  const Alive := "Alive"
  const UnderCare := "Under care"

  /** The replacement table of line 57-64. */
  const OutcomeClasses: map<string, string> := map[
    NaturalDeath := Death,
    Euthanasia := Death,
    Returned := Alive,
    Donated := Alive,
    Adopted := Alive,
    Released := Alive,
    OtherClosed := Alive,
    UnderCareState := UnderCare]

  /** `Series.replace` with a dict: a value equal to a key is replaced,
      any other value passes through unchanged (no error). */
  function ClassOf(state: string): (c: string)
    ensures state in OutcomeClasses ==> c in {Death, Alive, UnderCare}
    ensures state !in OutcomeClasses ==> c == state
  {
    if state in OutcomeClasses then OutcomeClasses[state] else state
  }

  /** The eight listed states and the class each one gets. */
  lemma OutcomeTable()
    ensures ClassOf(NaturalDeath) == Death && ClassOf(Euthanasia) == Death
    ensures ClassOf(Returned) == Alive && ClassOf(Donated) == Alive && ClassOf(Adopted) == Alive
    ensures ClassOf(Released) == Alive && ClassOf(OtherClosed) == Alive
    ensures ClassOf(UnderCareState) == UnderCare
    ensures |OutcomeClasses| == 8
  {
  }

  // ---------------------------------------------------------------------
  // The whole table
  // ---------------------------------------------------------------------

  /** One row after the three column transformations: the name stripped,
      the date parsed, the class added, every other column copied. A date
      that does not parse is the row's error. */
  function LoadRow(raw: RawRow): (r: Result<Record, LoadError>)
    ensures r.Success? <==> ParseDate(raw.happenDt).Success?
    ensures r.Failure? ==> r.error == BadDate(raw.happenDt)
    ensures r.Success? ==>
      r.value.careNm == StripParens(raw.careNm) &&
      ParseDate(raw.happenDt) == Success(r.value.happenDt) &&
      r.value.processState == raw.processState &&
      r.value.processStateClass == ClassOf(raw.processState) &&
      r.value.neuterYn == raw.neuterYn && r.value.sexCd == raw.sexCd &&
      r.value.lat == raw.lat && r.value.lng == raw.lng
  {
    match ParseDate(raw.happenDt)
    case Failure(e) => Failure(e)
    case Success(d) =>
      Success(Record(StripParens(raw.careNm), d, raw.processState, ClassOf(raw.processState),
                     raw.neuterYn, raw.sexCd, raw.lat, raw.lng))
  }

  /** Row `i` is the first row that does not load. */
  ghost predicate FirstFailure(rows: seq<RawRow>, i: int) {
    0 <= i < |rows| && LoadRow(rows[i]).Failure? &&
    forall k :: 0 <= k < i ==> LoadRow(rows[k]).Success?
  }

  /** The normalised table, or the error of the first row whose date does
      not parse (the whole load raises). */
  function Load(rows: seq<RawRow>): (r: Result<seq<Record>, LoadError>)
    ensures r.Success? <==> forall i :: 0 <= i < |rows| ==> LoadRow(rows[i]).Success?
    ensures r.Success? ==> (|r.value| == |rows| &&
      forall i :: 0 <= i < |rows| ==> LoadRow(rows[i]) == Success(r.value[i]))
    ensures r.Failure? ==> exists i :: FirstFailure(rows, i) && LoadRow(rows[i]) == Failure(r.error)
  {
    if rows == [] then Success([])
    else
      match LoadRow(rows[0])
      case Failure(e) => Failure(e)
      case Success(rec) =>
        match Load(rows[1..])
        case Failure(e) =>
          FailureShifts(rows, e);
          Failure(e)
        case Success(recs) =>
          SuccessShifts(rows, rec, recs);
          Success([rec] + recs)
  }

  /** The first failure of the rows after a good first row is the first
      failure of all rows. */
  lemma FailureShifts(rows: seq<RawRow>, e: LoadError)
    requires rows != [] && LoadRow(rows[0]).Success?
    requires exists j :: FirstFailure(rows[1..], j) && LoadRow(rows[1..][j]) == Failure(e)
    ensures exists i :: FirstFailure(rows, i) && LoadRow(rows[i]) == Failure(e)
  {
    var j :| FirstFailure(rows[1..], j) && LoadRow(rows[1..][j]) == Failure(e);
    assert rows[j + 1] == rows[1..][j];
    forall k | 0 < k < j + 1 ensures LoadRow(rows[k]).Success? {
      assert rows[k] == rows[1..][k - 1];
    }
    assert FirstFailure(rows, j + 1);
  }

  /** A good first row in front of a table that loads gives a table that
      loads. */
  lemma SuccessShifts(rows: seq<RawRow>, rec: Record, recs: seq<Record>)
    requires rows != [] && LoadRow(rows[0]) == Success(rec)
    requires |recs| == |rows| - 1
    requires forall i :: 0 <= i < |rows| - 1 ==> LoadRow(rows[1..][i]) == Success(recs[i])
    ensures forall i :: 0 <= i < |rows| ==> LoadRow(rows[i]) == Success(([rec] + recs)[i])
  {
    forall i | 0 < i < |rows| ensures LoadRow(rows[i]) == Success(([rec] + recs)[i]) {
      assert rows[i] == rows[1..][i - 1];
    }
  }

  /** Line 53: the name column with every name stripped. */
  method StripNames(rows: seq<RawRow>) returns (names: seq<string>)
    ensures |names| == |rows|
    ensures forall k :: 0 <= k < |rows| ==> names[k] == StripParens(rows[k].careNm)
  {
    names := [];
    for i := 0 to |rows|
      invariant |names| == i
      invariant forall k :: 0 <= k < i ==> names[k] == StripParens(rows[k].careNm)
    {
      names := names + [StripParens(rows[i].careNm)];
    }
  }

  /** Line 55: the date column, or the error of the first value that does
      not parse. */
  method ParseDates(rows: seq<RawRow>) returns (dates: Result<seq<Date>, LoadError>)
    ensures dates.Success? ==> (|dates.value| == |rows| &&
      forall k :: 0 <= k < |rows| ==> ParseDate(rows[k].happenDt) == Success(dates.value[k]))
    ensures dates.Failure? ==> Load(rows) == Failure(dates.error)
  {
    var parsed: seq<Date> := [];
    for i := 0 to |rows|
      invariant |parsed| == i
      invariant forall k :: 0 <= k < i ==> ParseDate(rows[k].happenDt) == Success(parsed[k])
    {
      var d := ParseDate(rows[i].happenDt);
      if d.Failure? {
        LoadFailsAt(rows, i);
        return Failure(d.error);
      }
      parsed := parsed + [d.value];
    }
    dates := Success(parsed);
  }

  /** Lines 57-64: the outcome-class column. */
  method ClassColumn(rows: seq<RawRow>) returns (classes: seq<string>)
    ensures |classes| == |rows|
    ensures forall k :: 0 <= k < |rows| ==> classes[k] == ClassOf(rows[k].processState)
  {
    classes := [];
    for i := 0 to |rows|
      invariant |classes| == i
      invariant forall k :: 0 <= k < i ==> classes[k] == ClassOf(rows[k].processState)
    {
      classes := classes + [ClassOf(rows[i].processState)];
    }
  }

  /** `load_data` as the source runs it: one whole-column pass per step,
      first the names, then the dates (raising on the first bad one), then
      the new outcome-class column. */
  method LoadData(rows: seq<RawRow>) returns (res: Result<seq<Record>, LoadError>)
    ensures res == Load(rows)
  {
    var careNm := StripNames(rows);
    var happenDt := ParseDates(rows);
    if happenDt.Failure? {
      return Failure(happenDt.error);
    }
    var classes := ClassColumn(rows);
    var table: seq<Record> := [];
    for i := 0 to |rows|
      invariant |table| == i
      invariant forall k :: 0 <= k < i ==> LoadRow(rows[k]) == Success(table[k])
    {
      var rec := Record(careNm[i], happenDt.value[i], rows[i].processState, classes[i],
                        rows[i].neuterYn, rows[i].sexCd, rows[i].lat, rows[i].lng);
      assert LoadRow(rows[i]) == Success(rec);
      table := table + [rec];
    }
    LoadSucceeds(rows, table);
    res := Success(table);
  }

  /** When every row loads, the load returns exactly those records. */
  lemma LoadSucceeds(rows: seq<RawRow>, table: seq<Record>)
    requires |table| == |rows|
    requires forall k :: 0 <= k < |rows| ==> LoadRow(rows[k]) == Success(table[k])
    ensures Load(rows) == Success(table)
  {
    var r := Load(rows);
    assert r.Success?;
    assert r.value == table;
  }

  /** Every record of a loaded table is normalised: its name holds no
      parenthesised segment, its date is a real day within the timestamp
      range whose year is the first four digits of the raw value, and a
      listed outcome state has been turned into its class. */
  lemma LoadedRecords(rows: seq<RawRow>)
    requires Load(rows).Success?
    ensures |Load(rows).value| == |rows|
    ensures forall i :: 0 <= i < |rows| ==>
      NoParenPair(Load(rows).value[i].careNm) &&
      ValidDate(Load(rows).value[i].happenDt) && InTimestampRange(Load(rows).value[i].happenDt) &&
      Year(Load(rows).value[i]) == DecimalValue(rows[i].happenDt[..4]) &&
      (rows[i].processState in OutcomeClasses ==>
        Load(rows).value[i].processStateClass in {Death, Alive, UnderCare})
  {
    var t := Load(rows).value;
    forall i | 0 <= i < |rows|
      ensures NoParenPair(t[i].careNm)
    {
      assert LoadRow(rows[i]) == Success(t[i]);
      StripParensLeavesNoMatch(rows[i].careNm);
    }
  }

  /** When row `i` is the first whose date fails, the load fails with its
      error. */
  lemma LoadFailsAt(rows: seq<RawRow>, i: nat)
    requires i < |rows| && ParseDate(rows[i].happenDt).Failure?
    requires forall k :: 0 <= k < i ==> ParseDate(rows[k].happenDt).Success?
    ensures Load(rows) == Failure(ParseDate(rows[i].happenDt).error)
  {
    var r := Load(rows);
    assert FirstFailure(rows, i);
    var j :| FirstFailure(rows, j) && LoadRow(rows[j]) == Failure(r.error);
    assert j == i;
  }
}
