/** The summaries of the Overview and Report pages: intake counts per
    selected year, shelter counts, frequency tables of the outcome class and
    of the neuter and sex codes, and the outcome-class by code tables. */
module Aggregates {
  import opened Collections
  import opened Ordering
  import opened Intake

  // ---------------------------------------------------------------------
  // Intake counts per selected year (final_report.py lines 81-89)
  // ---------------------------------------------------------------------

  /** `df[df['happenDt'].dt.year.isin(selected)]`: the records of the
      selected years, in table order. */
  function FilterYears(records: seq<Record>, selected: seq<int>): (r: seq<Record>)
    ensures forall x :: x in r <==> x in records && Year(x) in selected
  {
    if records == [] then []
    else (if Year(records[0]) in selected then [records[0]] else []) + FilterYears(records[1..], selected)
  }

  /** Filtering keeps every record of a selected year and no other: its
      year column has the same number of each selected year, none of any
      other, and as many values as the table has records of those years. */
  lemma {:induction false} FilterYearsCounts(records: seq<Record>, selected: seq<int>, y: int)
    ensures Count(Years(FilterYears(records, selected)), y) == if y in selected then Count(Years(records), y) else 0
  {
    if records != [] {
      FilterYearsCounts(records[1..], selected, y);
      var head := if Year(records[0]) in selected then [records[0]] else [];
      var tail := FilterYears(records[1..], selected);
      assert FilterYears(records, selected) == head + tail;
      YearsAppend(head, tail);
      CountAppend(Years(head), Years(tail), y);
      assert Years(records) == [Year(records[0])] + Years(records[1..]);
      CountAppend([Year(records[0])], Years(records[1..]), y);
    }
  }

  lemma {:induction false} YearsAppend(a: seq<Record>, b: seq<Record>)
    ensures Years(a + b) == Years(a) + Years(b)
  {
    assert |Years(a + b)| == |Years(a) + Years(b)|;
    forall i | 0 <= i < |a + b| ensures Years(a + b)[i] == (Years(a) + Years(b))[i] {
      if i < |a| {
        assert (a + b)[i] == a[i];
      } else {
        assert (a + b)[i] == b[i - |a|];
      }
    }
  }

  lemma {:induction false} FilterYearsLength(records: seq<Record>, selected: seq<int>)
    ensures |FilterYears(records, selected)| == CountIn(Years(records), set x | x in selected)
  {
    if records != [] {
      FilterYearsLength(records[1..], selected);
      assert Years(records)[1..] == Years(records[1..]);
    }
  }

  /** `Series.reindex(index)`: the value stored for each label of `index`,
      in the order of `index`, NaN (`None`) for a label with no row. */
  function Reindex<K(==)>(table: seq<Counted<K>>, index: seq<K>): (r: seq<Option<nat>>)
    ensures |r| == |index|
    ensures forall i :: 0 <= i < |index| ==> r[i] == Lookup(table, index[i])
  {
    if index == [] then [] else [Lookup(table, index[0])] + Reindex(table, index[1..])
  }

  /** `filtered_df.groupby(year).size().reindex(selected)`: the number of
      records of each selected year, keyed and ordered by the selection.
      The grouping's own key order (ascending in pandas, first occurrence
      in `Group`) is discarded by the reindex. */
  function YearCounts(records: seq<Record>, selected: seq<int>): seq<Option<nat>> {
    var filtered := FilterYears(records, selected);
    Reindex(Group(Years(filtered)), selected)
  }

  /** Entry `i` is the number of records of year `selected[i]`, or NaN when
      that year has none. */
  lemma YearCountsSpec(records: seq<Record>, selected: seq<int>)
    ensures |YearCounts(records, selected)| == |selected|
    ensures forall i :: 0 <= i < |selected| ==>
      YearCounts(records, selected)[i] ==
        if Count(Years(records), selected[i]) == 0 then None else Some(Count(Years(records), selected[i]))
  {
    var ys := Years(FilterYears(records, selected));
    forall i | 0 <= i < |selected|
      ensures YearCounts(records, selected)[i] ==
        if Count(Years(records), selected[i]) == 0 then None else Some(Count(Years(records), selected[i]))
    {
      LookupGroup(ys, selected[i]);
      FilterYearsCounts(records, selected, selected[i]);
    }
  }

  /** Sum of a series, NaN entries skipped (`Series.sum()`). */
  function SumPresent(s: seq<Option<nat>>): nat {
    if s == [] then 0 else (if s[0].Some? then s[0].value else 0) + SumPresent(s[1..])
  }

  /** The "selected years" metric of line 89. */
  function YearTotal(records: seq<Record>, selected: seq<int>): nat {
    SumPresent(YearCounts(records, selected))
  }

  lemma {:induction false} SumPresentOfCounts(s: seq<Option<nat>>, ys: seq<int>, selected: seq<int>)
    requires NoDuplicates(selected) && |s| == |selected|
    requires forall i :: 0 <= i < |s| ==> (if s[i].Some? then s[i].value else 0) == Count(ys, selected[i])
    ensures SumPresent(s) == CountIn(ys, set y | y in selected)
  {
    if s == [] {
      assert (set y | y in selected) == {};
      CountInNone(ys);
    } else {
      NoDuplicatesCons(selected[0], selected[1..]);
      assert selected == [selected[0]] + selected[1..];
      SumPresentOfCounts(s[1..], ys, selected[1..]);
      var rest := set y | y in selected[1..];
      assert (set y | y in selected) == {selected[0]} + rest;
      CountInUnion(ys, {selected[0]}, rest);
      CountInSingleton(ys, selected[0]);
    }
  }

  /** The metric equals the number of records whose year is selected (the
      widget never offers a year twice). */
  lemma YearTotalSpec(records: seq<Record>, selected: seq<int>)
    requires NoDuplicates(selected)
    ensures YearTotal(records, selected) == |FilterYears(records, selected)|
  {
    YearCountsSpec(records, selected);
    var s := YearCounts(records, selected);
    forall i | 0 <= i < |s| ensures (if s[i].Some? then s[i].value else 0) == Count(Years(records), selected[i]) {
    }
    SumPresentOfCounts(s, Years(records), selected);
    FilterYearsLength(records, selected);
  }

  /** The selector only offers years taken from the data, so every selected
      year has a count of at least one and no entry is NaN. */
  lemma SelectedYearsHaveRecords(records: seq<Record>, selected: seq<int>)
    requires forall i :: 0 <= i < |selected| ==> selected[i] in SelectableYears(records)
    ensures forall i :: 0 <= i < |selected| ==>
      YearCounts(records, selected)[i].Some? && YearCounts(records, selected)[i].value >= 1
  {
    YearCountsSpec(records, selected);
    DistinctSpec(Years(records));
    assert SelectableYears(records) == Distinct(Years(records));
    forall i | 0 <= i < |selected|
      ensures YearCounts(records, selected)[i].Some? && YearCounts(records, selected)[i].value >= 1
    {
      assert selected[i] in Distinct(Years(records));
      assert selected[i] in Years(records);
    }
  }

  // ---------------------------------------------------------------------
  // Shelter counts (lines 106, 115-118)
  // ---------------------------------------------------------------------

  /** The `[['lat', 'lng']]` columns. */
  function Coordinates(records: seq<Record>): (cs: seq<(Coord, Coord)>)
    ensures |cs| == |records|
    ensures forall i :: 0 <= i < |records| ==> cs[i] == (records[i].lat, records[i].lng)
  {
    if records == [] then [] else [(records[0].lat, records[0].lng)] + Coordinates(records[1..])
  }

  /** `len(df[['lat', 'lng']].drop_duplicates())`: the number of distinct
      coordinate pairs, however many names share one. */
  function ShelterCount(records: seq<Record>): (n: nat)
    ensures n == |set r | r in records :: (r.lat, r.lng)|
  {
    var cs := Coordinates(records);
    DistinctCard(cs);
    assert (set x | x in cs) == (set r | r in records :: (r.lat, r.lng)) by {
      forall x | x in cs ensures x in (set r | r in records :: (r.lat, r.lng)) {
        var i :| 0 <= i < |cs| && cs[i] == x;
        assert records[i] in records;
      }
      forall r | r in records ensures (r.lat, r.lng) in cs {
        var i :| 0 <= i < |records| && records[i] == r;
        assert cs[i] == (r.lat, r.lng);
      }
    }
    |Distinct(cs)|
  }

  /** The "selected years" shelter metric of line 118. It is computed on
      the whole table, so it is the global count whatever is selected. */
  function SelectedYearShelterCount(records: seq<Record>, selected: seq<int>): (n: nat)
    ensures n == |set r | r in records :: (r.lat, r.lng)|
  {
    ShelterCount(records)
  }

  /** The shelter names of the records of year `y`. */
  function NamesInYear(records: seq<Record>, y: int): (names: seq<string>)
    ensures forall n :: n in names <==> exists r :: r in records && Year(r) == y && r.careNm == n
  {
    if records == [] then []
    else
      var rest := NamesInYear(records[1..], y);
      assert forall r :: r in records[1..] ==> r in records;
      assert forall r :: r in records ==> r == records[0] || r in records[1..];
      (if Year(records[0]) == y then [records[0].careNm] else []) + rest
  }

  /** One row per year key: the number of distinct shelter names that year. */
  function UniqueNamesPerYear(records: seq<Record>, years: seq<int>): (rows: seq<Counted<int>>)
    ensures Keys(rows) == years
    ensures forall i :: 0 <= i < |rows| ==> rows[i].count == |set x | x in NamesInYear(records, years[i])|
  {
    if years == [] then []
    else
      DistinctCard(NamesInYear(records, years[0]));
      [Counted(years[0], |Distinct(NamesInYear(records, years[0]))|)] + UniqueNamesPerYear(records, years[1..])
  }

  /** `filtered_df.groupby(year)['careNm'].nunique()`: per selected year
      that has records, ascending, the number of distinct shelter names. */
  function SheltersByYear(records: seq<Record>, selected: seq<int>): seq<Counted<int>> {
    var filtered := FilterYears(records, selected);
    UniqueNamesPerYear(filtered, SortedDistinct(Years(filtered), (a: int, b: int) => a < b))
  }

  /** The years listed are exactly the selected years that have records,
      in ascending order. */
  lemma SheltersByYearKeys(records: seq<Record>, selected: seq<int>)
    ensures StrictlySorted(Keys(SheltersByYear(records, selected)), (a: int, b: int) => a < b)
    ensures forall y :: y in Keys(SheltersByYear(records, selected)) <==>
      y in selected && exists r :: r in records && Year(r) == y
  {
    var filtered := FilterYears(records, selected);
    var less := (a: int, b: int) => a < b;
    IntLessIsStrictTotal();
    SortedDistinctSpec(Years(filtered), less);
    var rows := SheltersByYear(records, selected);
    assert Keys(rows) == SortedDistinct(Years(filtered), less);
    forall y ensures y in Keys(rows) <==> y in selected && exists r :: r in records && Year(r) == y {
      FilteredYears(records, selected, y);
    }
  }

  /** Each count is the number of distinct names among that year's
      records, hence at least one. */
  lemma SheltersByYearCounts(records: seq<Record>, selected: seq<int>)
    ensures forall i :: 0 <= i < |SheltersByYear(records, selected)| ==>
      SheltersByYear(records, selected)[i].count ==
        |set r | r in records && Year(r) == SheltersByYear(records, selected)[i].key :: r.careNm| >= 1
  {
    forall i | 0 <= i < |SheltersByYear(records, selected)|
      ensures SheltersByYear(records, selected)[i].count ==
        |set r | r in records && Year(r) == SheltersByYear(records, selected)[i].key :: r.careNm| >= 1
    {
      SheltersByYearRow(records, selected, i);
    }
  }

  lemma SheltersByYearRow(records: seq<Record>, selected: seq<int>, i: int)
    requires 0 <= i < |SheltersByYear(records, selected)|
    ensures SheltersByYear(records, selected)[i].count ==
      |set r | r in records && Year(r) == SheltersByYear(records, selected)[i].key :: r.careNm| >= 1
  {
    var rows := SheltersByYear(records, selected);
    SheltersByYearKeys(records, selected);
    var y := rows[i].key;
    assert y in Keys(rows);
    FilteredNames(records, selected, y);
    var names := set r | r in records && Year(r) == y :: r.careNm;
    var r :| r in records && Year(r) == y;
    assert r.careNm in names;
  }

  lemma FilteredYears(records: seq<Record>, selected: seq<int>, y: int)
    ensures y in Years(FilterYears(records, selected)) <==> y in selected && exists r :: r in records && Year(r) == y
  {
    var filtered := FilterYears(records, selected);
    var ys := Years(filtered);
    if y in ys {
      var i :| 0 <= i < |filtered| && ys[i] == y;
      assert filtered[i] in filtered;
    }
    if y in selected && exists r :: r in records && Year(r) == y {
      var r :| r in records && Year(r) == y;
      assert r in filtered;
      var i :| 0 <= i < |filtered| && filtered[i] == r;
      assert ys[i] == y;
    }
  }

  lemma FilteredNames(records: seq<Record>, selected: seq<int>, y: int)
    requires y in selected
    ensures (set x | x in NamesInYear(FilterYears(records, selected), y)) ==
      (set r | r in records && Year(r) == y :: r.careNm)
  {
    var filtered := FilterYears(records, selected);
    var a, b := set x | x in NamesInYear(filtered, y), set r | r in records && Year(r) == y :: r.careNm;
    forall x | x in a ensures x in b {
      var r :| r in filtered && Year(r) == y && r.careNm == x;
    }
    forall x | x in b ensures x in a {
      var r :| r in records && Year(r) == y && r.careNm == x;
      assert r in filtered;
    }
  }

  // ---------------------------------------------------------------------
  // Frequency tables (lines 142-156)
  // ---------------------------------------------------------------------

  /** The outcome-class column. */
  function Classes(records: seq<Record>): (cs: seq<string>)
    ensures |cs| == |records|
    ensures forall i :: 0 <= i < |records| ==> cs[i] == records[i].processStateClass
  {
    if records == [] then [] else [records[0].processStateClass] + Classes(records[1..])
  }

  /** `df['processState_class'].value_counts()`. */
  function OutcomeCounts(records: seq<Record>): seq<Counted<string>> {
    ValueCounts(Classes(records))
  }

  /** One row per class present, largest first, the counts covering every
      record. */
  lemma OutcomeCountsSpec(records: seq<Record>)
    ensures NonIncreasing(OutcomeCounts(records)) && KeysDistinct(OutcomeCounts(records))
    ensures forall c :: c in Keys(OutcomeCounts(records)) <==> exists r :: r in records && r.processStateClass == c
    ensures SumCounts(OutcomeCounts(records)) == |records|
  {
    ValueCountsSpec(Classes(records));
    forall c ensures c in Classes(records) <==> exists r :: r in records && r.processStateClass == c {
      if c in Classes(records) {
        var i :| 0 <= i < |records| && Classes(records)[i] == c;
        assert records[i] in records;
      }
      if exists r :: r in records && r.processStateClass == c {
        var r :| r in records && r.processStateClass == c;
        var i :| 0 <= i < |records| && records[i] == r;
        assert Classes(records)[i] == c;
      }
    }
  }

  /** The two coded columns the Report page summarises. */
  datatype CodeColumn = NeuterYn | SexCd

  function CodeOf(r: Record, column: CodeColumn): Option<string> {
    match column
    case NeuterYn => r.neuterYn
    case SexCd => r.sexCd
  }

  /** The non-missing codes of a column (`value_counts` drops NaN). */
  function PresentCodes(records: seq<Record>, column: CodeColumn): (cs: seq<string>)
    ensures |cs| <= |records|
    ensures forall c :: c in cs <==> exists r :: r in records && CodeOf(r, column) == Some(c)
  {
    if records == [] then []
    else
      var rest := PresentCodes(records[1..], column);
      assert forall r :: r in records[1..] ==> r in records;
      assert forall r :: r in records ==> r == records[0] || r in records[1..];
      (match CodeOf(records[0], column) case Some(c) => [c] case None => []) + rest
  }

  /** Line 147 and line 153. */
  const NeuterLabels: map<string, string> := map["Y" := "Yes", "N" := "No", "U" := "Unknown"]
  const SexLabels: map<string, string> := map["M" := "male", "F" := "female", "Q" := "unknown"]

  /** `[labels[code] for code in counts.index]`: every key replaced by its
      label; the first key the dictionary lacks raises KeyError. */
  function Relabel(rows: seq<Counted<string>>, labels: map<string, string>): (r: Result<seq<Counted<string>>, string>)
    ensures r.Success? <==> forall k :: k in Keys(rows) ==> k in labels
    ensures r.Failure? ==> r.error in Keys(rows) && r.error !in labels
    ensures r.Success? ==> (|r.value| == |rows| &&
      forall i :: 0 <= i < |rows| ==> r.value[i] == Counted(labels[rows[i].key], rows[i].count))
  {
    if rows == [] then Success([])
    else if rows[0].key !in labels then Failure(rows[0].key)
    else
      assert Keys(rows) == [rows[0].key] + Keys(rows[1..]);
      match Relabel(rows[1..], labels)
      case Failure(e) => Failure(e)
      case Success(rest) => Success([Counted(labels[rows[0].key], rows[0].count)] + rest)
  }

  /** `df[column].value_counts()` with its index relabelled. */
  function LabelCounts(records: seq<Record>, column: CodeColumn, labels: map<string, string>): Result<seq<Counted<string>>, string> {
    Relabel(ValueCounts(PresentCodes(records, column)), labels)
  }

  /** Lines 146-148. */
  function NeuterCounts(records: seq<Record>): Result<seq<Counted<string>>, string> {
    LabelCounts(records, NeuterYn, NeuterLabels)
  }

  /** Lines 152-154. */
  function SexCounts(records: seq<Record>): Result<seq<Counted<string>>, string> {
    LabelCounts(records, SexCd, SexLabels)
  }

  /** The table fails exactly when a present code has no label, and then
      names such a code. */
  lemma LabelCountsFailure(records: seq<Record>, column: CodeColumn, labels: map<string, string>)
    ensures LabelCounts(records, column, labels).Success? <==>
      forall r :: r in records && CodeOf(r, column).Some? ==> CodeOf(r, column).value in labels
    ensures LabelCounts(records, column, labels).Failure? ==>
      exists r :: r in records && CodeOf(r, column) == Some(LabelCounts(records, column, labels).error) &&
        LabelCounts(records, column, labels).error !in labels
  {
    var codes := PresentCodes(records, column);
    ValueCountsSpec(codes);
    var r := LabelCounts(records, column, labels);
    if r.Failure? {
      assert r.error in codes;
    }
    if forall x :: x in records && CodeOf(x, column).Some? ==> CodeOf(x, column).value in labels {
      forall k | k in Keys(ValueCounts(codes)) ensures k in labels {
        assert k in codes;
        var x :| x in records && CodeOf(x, column) == Some(k);
      }
    }
  }

  /** Otherwise the table has one row per present code, its rows go
      largest first, and the counts add up to the number of non-missing
      codes; every present code has a label and a row holding that label
      with the code's count. */
  lemma LabelCountsTable(records: seq<Record>, column: CodeColumn, labels: map<string, string>)
    requires LabelCounts(records, column, labels).Success?
    ensures var codes, table := PresentCodes(records, column), LabelCounts(records, column, labels).value;
      |table| == |set c | c in codes| && NonIncreasing(table) && SumCounts(table) == |codes|
    ensures var codes, table := PresentCodes(records, column), LabelCounts(records, column, labels).value;
      forall c :: c in codes ==> c in labels && exists i :: 0 <= i < |table| && table[i] == Counted(labels[c], Count(codes, c))
  {
    var codes := PresentCodes(records, column);
    var vc := ValueCounts(codes);
    ValueCountsSpec(codes);
    RelabelNonIncreasing(vc, labels);
    RelabelSum(vc, labels);
    LabelCountsCover(records, column, labels);
  }

  lemma LabelCountsCover(records: seq<Record>, column: CodeColumn, labels: map<string, string>)
    requires LabelCounts(records, column, labels).Success?
    ensures var codes, table := PresentCodes(records, column), LabelCounts(records, column, labels).value;
      forall c :: c in codes ==> c in labels && exists i :: 0 <= i < |table| && table[i] == Counted(labels[c], Count(codes, c))
  {
    var codes := PresentCodes(records, column);
    var vc := ValueCounts(codes);
    var table := LabelCounts(records, column, labels).value;
    ValueCountsSpec(codes);
    forall c | c in codes
      ensures c in labels && exists i :: 0 <= i < |table| && table[i] == Counted(labels[c], Count(codes, c))
    {
      assert c in Keys(vc);
      var i :| 0 <= i < |vc| && vc[i].key == c;
      assert table[i] == Counted(labels[c], Count(codes, c));
    }
  }

  /** Each row is a present code's label with the number of records
      holding that code. */
  lemma LabelCountsRows(records: seq<Record>, column: CodeColumn, labels: map<string, string>)
    requires LabelCounts(records, column, labels).Success?
    ensures var codes, table := PresentCodes(records, column), LabelCounts(records, column, labels).value;
      forall i :: 0 <= i < |table| ==>
        exists c :: c in labels && table[i] == Counted(labels[c], Count(codes, c)) && Count(codes, c) >= 1
  {
    var codes := PresentCodes(records, column);
    var vc := ValueCounts(codes);
    ValueCountsRows(codes);
    var table := LabelCounts(records, column, labels).value;
    forall i | 0 <= i < |table|
      ensures exists c :: c in labels && table[i] == Counted(labels[c], Count(codes, c)) && Count(codes, c) >= 1
    {
      var c := vc[i].key;
      assert c in Keys(vc);
      assert table[i] == Counted(labels[c], Count(codes, c));
    }
  }

  /** Relabelling keeps a table sorted by count. */
  lemma RelabelNonIncreasing(rows: seq<Counted<string>>, labels: map<string, string>)
    requires Relabel(rows, labels).Success? && NonIncreasing(rows)
    ensures NonIncreasing(Relabel(rows, labels).value)
  {
    var table := Relabel(rows, labels).value;
    forall i, j | 0 <= i < j < |table| ensures table[i].count >= table[j].count {
      assert table[i].count == rows[i].count && table[j].count == rows[j].count;
    }
  }

  lemma {:induction false} RelabelSum(rows: seq<Counted<string>>, labels: map<string, string>)
    requires Relabel(rows, labels).Success?
    ensures SumCounts(Relabel(rows, labels).value) == SumCounts(rows)
  {
    if rows != [] {
      assert Keys(rows) == [rows[0].key] + Keys(rows[1..]);
      RelabelSum(rows[1..], labels);
    }
  }

  /** Neuter codes other than Y, N and U, and sex codes other than M, F
      and Q, make the page raise. */
  lemma KnownCodes()
    ensures NeuterLabels.Keys == {"Y", "N", "U"} && SexLabels.Keys == {"M", "F", "Q"}
    ensures NeuterLabels["Y"] == "Yes" && NeuterLabels["N"] == "No" && NeuterLabels["U"] == "Unknown"
    ensures SexLabels["M"] == "male" && SexLabels["F"] == "female" && SexLabels["Q"] == "unknown"
  {
  }

  // ---------------------------------------------------------------------
  // Outcome class by code (lines 162-168)
  // ---------------------------------------------------------------------

  /** `groupby([...]).size().unstack(fill_value=0)`: rows are the classes,
      columns the codes, both ascending; a cell counts the records with
      that class and code, 0 where there are none. */
  datatype CrossTab = CrossTab(rowKeys: seq<string>, colKeys: seq<string>, cells: seq<seq<nat>>)

  /** (class, code) of every record whose code is present (groupby drops
      missing keys). */
  function ClassCodePairs(records: seq<Record>, column: CodeColumn): (ps: seq<(string, string)>)
    ensures forall p :: p in ps <==> exists r :: r in records && CodeOf(r, column) == Some(p.1) && r.processStateClass == p.0
  {
    if records == [] then []
    else
      var rest := ClassCodePairs(records[1..], column);
      assert forall r :: r in records[1..] ==> r in records;
      assert forall r :: r in records ==> r == records[0] || r in records[1..];
      (match CodeOf(records[0], column)
       case Some(c) => [(records[0].processStateClass, c)]
       case None => []) + rest
  }

  function Firsts(ps: seq<(string, string)>): (xs: seq<string>)
    ensures |xs| == |ps| && forall i :: 0 <= i < |ps| ==> xs[i] == ps[i].0
  {
    if ps == [] then [] else [ps[0].0] + Firsts(ps[1..])
  }

  function Seconds(ps: seq<(string, string)>): (xs: seq<string>)
    ensures |xs| == |ps| && forall i :: 0 <= i < |ps| ==> xs[i] == ps[i].1
  {
    if ps == [] then [] else [ps[0].1] + Seconds(ps[1..])
  }

  /** The value `unstack(fill_value=0)` puts in a cell. */
  function Cell(grouped: seq<Counted<(string, string)>>, row: string, col: string): nat {
    match Lookup(grouped, (row, col))
    case Some(n) => n
    case None => 0
  }

  function RowCells(grouped: seq<Counted<(string, string)>>, row: string, cols: seq<string>): (cs: seq<nat>)
    ensures |cs| == |cols| && forall j :: 0 <= j < |cols| ==> cs[j] == Cell(grouped, row, cols[j])
  {
    if cols == [] then [] else [Cell(grouped, row, cols[0])] + RowCells(grouped, row, cols[1..])
  }

  function Cells(grouped: seq<Counted<(string, string)>>, rows: seq<string>, cols: seq<string>): (cs: seq<seq<nat>>)
    ensures |cs| == |rows| && forall i :: 0 <= i < |rows| ==> cs[i] == RowCells(grouped, rows[i], cols)
  {
    if rows == [] then [] else [RowCells(grouped, rows[0], cols)] + Cells(grouped, rows[1..], cols)
  }

  function Unstack(pairs: seq<(string, string)>): CrossTab {
    var less := (a: string, b: string) => StringLess(a, b);
    var rows := SortedDistinct(Firsts(pairs), less);
    var cols := SortedDistinct(Seconds(pairs), less);
    CrossTab(rows, cols, Cells(Group(pairs), rows, cols))
  }

  /** The Korean column names that line 163 gives the neuter codes. */
  const NeuterColumnNames: map<string, string> := map["U" := "알 수 없음", "Y" := "중성화", "N" := "중성화되지 않음"]

  /** `DataFrame.rename(columns=...)`: listed column labels are replaced,
      others kept. */
  function RenameColumns(t: CrossTab, names: map<string, string>): (r: CrossTab)
    ensures r.rowKeys == t.rowKeys && r.cells == t.cells && |r.colKeys| == |t.colKeys|
    ensures forall j :: 0 <= j < |t.colKeys| ==>
      r.colKeys[j] == if t.colKeys[j] in names then names[t.colKeys[j]] else t.colKeys[j]
  {
    t.(colKeys := seq(|t.colKeys|, j requires 0 <= j < |t.colKeys| =>
      if t.colKeys[j] in names then names[t.colKeys[j]] else t.colKeys[j]))
  }

  /** Lines 162-163. */
  function NeuterByClass(records: seq<Record>): CrossTab {
    RenameColumns(Unstack(ClassCodePairs(records, NeuterYn)), NeuterColumnNames)
  }

  /** Line 167. */
  function SexByClass(records: seq<Record>): CrossTab {
    Unstack(ClassCodePairs(records, SexCd))
  }

  function RowSum(cs: seq<nat>): nat {
    if cs == [] then 0 else cs[0] + RowSum(cs[1..])
  }

  function TableSum(cells: seq<seq<nat>>): nat {
    if cells == [] then 0 else RowSum(cells[0]) + TableSum(cells[1..])
  }

  /** The cells of one row count the pairs of that row whose code is among
      the columns. */
  lemma {:induction false} RowCellsSum(pairs: seq<(string, string)>, row: string, cols: seq<string>)
    requires NoDuplicates(cols)
    ensures RowSum(RowCells(Group(pairs), row, cols)) == CountIn(pairs, set c | c in cols :: (row, c))
  {
    var cs := RowCells(Group(pairs), row, cols);
    if cols == [] {
      assert (set c | c in cols :: (row, c)) == {};
      CountInNone(pairs);
    } else {
      NoDuplicatesCons(cols[0], cols[1..]);
      RowCellsSum(pairs, row, cols[1..]);
      assert cs[1..] == RowCells(Group(pairs), row, cols[1..]);
      LookupGroup(pairs, (row, cols[0]));
      RowSplit(row, cols);
      CountInUnion(pairs, {(row, cols[0])}, set c | c in cols[1..] :: (row, c));
      CountInSingleton(pairs, (row, cols[0]));
    }
  }

  /** The cells of a non-empty column list are its first cell plus the
      cells of the others, and the two parts are disjoint. */
  lemma RowSplit(row: string, cols: seq<string>)
    requires cols != [] && cols[0] !in cols[1..]
    ensures (set c | c in cols :: (row, c)) == {(row, cols[0])} + (set c | c in cols[1..] :: (row, c))
    ensures {(row, cols[0])} !! (set c | c in cols[1..] :: (row, c))
  {
    assert cols == [cols[0]] + cols[1..];
  }

  lemma CountInNone<T>(s: seq<T>)
    ensures CountIn(s, {}) == 0
  {
    if s != [] {
      CountInNone(s[1..]);
    }
  }

  /** All cells together count the pairs whose class is a row and whose
      code is a column. */
  lemma {:induction false} CellsSum(pairs: seq<(string, string)>, rows: seq<string>, cols: seq<string>)
    requires NoDuplicates(rows) && NoDuplicates(cols)
    ensures TableSum(Cells(Group(pairs), rows, cols)) == CountIn(pairs, set r, c | r in rows && c in cols :: (r, c))
  {
    var cs := Cells(Group(pairs), rows, cols);
    if rows == [] {
      CountInNone(pairs);
      assert (set r, c | r in rows && c in cols :: (r, c)) == {};
    } else {
      NoDuplicatesCons(rows[0], rows[1..]);
      assert rows == [rows[0]] + rows[1..];
      CellsSum(pairs, rows[1..], cols);
      assert cs[1..] == Cells(Group(pairs), rows[1..], cols);
      RowCellsSum(pairs, rows[0], cols);
      GridSplit(rows, cols);
      CountInUnion(pairs, set c | c in cols :: (rows[0], c), set r, c | r in rows[1..] && c in cols :: (r, c));
    }
  }

  /** The grid of a non-empty row list is its first row plus the grid of
      the others, and the two parts are disjoint. */
  lemma GridSplit(rows: seq<string>, cols: seq<string>)
    requires rows != [] && rows[0] !in rows[1..]
    ensures var head, rest := set c | c in cols :: (rows[0], c), set r, c | r in rows[1..] && c in cols :: (r, c);
      (set r, c | r in rows && c in cols :: (r, c)) == head + rest && head !! rest
  {
    var all := set r, c | r in rows && c in cols :: (r, c);
    var head, rest := set c | c in cols :: (rows[0], c), set r, c | r in rows[1..] && c in cols :: (r, c);
    forall p | p in all ensures p in head + rest {
      assert p.0 == rows[0] || p.0 in rows[1..];
    }
    forall p | p in rest ensures p in all {
      assert p.0 in rows;
    }
  }

  /** Rows are the classes and columns the codes of the pairs, each once
      and ascending. */
  lemma UnstackKeys(pairs: seq<(string, string)>)
    ensures var less := (a: string, b: string) => StringLess(a, b);
      StrictlySorted(Unstack(pairs).rowKeys, less) && StrictlySorted(Unstack(pairs).colKeys, less)
    ensures forall k :: k in Unstack(pairs).rowKeys <==> exists p :: p in pairs && p.0 == k
    ensures forall k :: k in Unstack(pairs).colKeys <==> exists p :: p in pairs && p.1 == k
  {
    var less := (a: string, b: string) => StringLess(a, b);
    StringLessIsStrictTotal();
    SortedDistinctSpec(Firsts(pairs), less);
    SortedDistinctSpec(Seconds(pairs), less);
    forall k ensures k in Firsts(pairs) <==> exists p :: p in pairs && p.0 == k {
      if k in Firsts(pairs) {
        var i :| 0 <= i < |pairs| && Firsts(pairs)[i] == k;
        assert pairs[i] in pairs;
      }
      if exists p :: p in pairs && p.0 == k {
        var p :| p in pairs && p.0 == k;
        var i :| 0 <= i < |pairs| && pairs[i] == p;
        assert Firsts(pairs)[i] == k;
      }
    }
    forall k ensures k in Seconds(pairs) <==> exists p :: p in pairs && p.1 == k {
      if k in Seconds(pairs) {
        var i :| 0 <= i < |pairs| && Seconds(pairs)[i] == k;
        assert pairs[i] in pairs;
      }
      if exists p :: p in pairs && p.1 == k {
        var p :| p in pairs && p.1 == k;
        var i :| 0 <= i < |pairs| && pairs[i] == p;
        assert Seconds(pairs)[i] == k;
      }
    }
  }

  /** Every cell counts its (class, code) pair, so a combination that never
      occurs holds 0. */
  lemma UnstackCells(pairs: seq<(string, string)>)
    ensures |Unstack(pairs).cells| == |Unstack(pairs).rowKeys|
    ensures forall i, j :: 0 <= i < |Unstack(pairs).rowKeys| && 0 <= j < |Unstack(pairs).colKeys| ==>
      |Unstack(pairs).cells[i]| == |Unstack(pairs).colKeys| &&
      Unstack(pairs).cells[i][j] == Count(pairs, (Unstack(pairs).rowKeys[i], Unstack(pairs).colKeys[j]))
  {
    var t := Unstack(pairs);
    forall i, j | 0 <= i < |t.rowKeys| && 0 <= j < |t.colKeys|
      ensures |t.cells[i]| == |t.colKeys| && t.cells[i][j] == Count(pairs, (t.rowKeys[i], t.colKeys[j]))
    {
      LookupGroup(pairs, (t.rowKeys[i], t.colKeys[j]));
    }
  }

  /** The cells add up to the number of pairs. */
  lemma UnstackTotal(pairs: seq<(string, string)>)
    ensures TableSum(Unstack(pairs).cells) == |pairs|
  {
    var less := (a: string, b: string) => StringLess(a, b);
    StringLessIsStrictTotal();
    var t := Unstack(pairs);
    UnstackKeys(pairs);
    StrictlySortedNoDuplicates(t.rowKeys, less);
    StrictlySortedNoDuplicates(t.colKeys, less);
    CellsSum(pairs, t.rowKeys, t.colKeys);
    var grid := set r, c | r in t.rowKeys && c in t.colKeys :: (r, c);
    forall p | p in pairs ensures p in grid {
      assert p.0 in t.rowKeys && p.1 in t.colKeys;
    }
    CountInAll(pairs, grid);
  }

  lemma StrictlySortedNoDuplicates<K(!new)>(s: seq<K>, less: (K, K) -> bool)
    requires StrictTotalOrder(less) && StrictlySorted(s, less)
    ensures NoDuplicates(s)
  {
    forall i, j | 0 <= i < j < |s| ensures s[i] != s[j] {
      assert less(s[i], s[j]);
    }
  }

  /** Both Report tables cover every record with a non-missing code:
      their cells add up to that number. */
  lemma ByClassTotals(records: seq<Record>)
    ensures TableSum(NeuterByClass(records).cells) == |PresentCodes(records, NeuterYn)|
    ensures TableSum(SexByClass(records).cells) == |PresentCodes(records, SexCd)|
  {
    UnstackTotal(ClassCodePairs(records, NeuterYn));
    UnstackTotal(ClassCodePairs(records, SexCd));
    PairsCount(records, NeuterYn);
    PairsCount(records, SexCd);
  }

  lemma {:induction false} PairsCount(records: seq<Record>, column: CodeColumn)
    ensures |ClassCodePairs(records, column)| == |PresentCodes(records, column)|
  {
    if records != [] {
      PairsCount(records[1..], column);
    }
  }
}
