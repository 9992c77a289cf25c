/** The shelter intake table: one row per abandoned-animal case, as read
    from the CSV file and as normalised by the loader. */
module Intake {
  import opened Collections

  /** A latitude or longitude value. The report only ever compares these
      for equality (as group keys and for duplicate removal), so the model
      keeps them opaque. */
  type Coord(==, !new)

  /** A calendar date (proleptic Gregorian). */
  datatype Date = Date(year: int, month: int, day: int)

  /** A row of the CSV file before normalisation. `happenDt` is the decimal
      text of the YYYYMMDD value; a missing neuter or sex code is `None`. */
  datatype RawRow = RawRow(
    careNm: string,
    happenDt: string,
    processState: string,
    neuterYn: Option<string>,
    sexCd: Option<string>,
    lat: Coord,
    lng: Coord)

  /** A row after `load_data`: shelter name without parenthesised segments,
      parsed intake date, and the added coarse outcome class. */
  datatype Record = Record(
    careNm: string,
    happenDt: Date,
    processState: string,
    processStateClass: string,
    neuterYn: Option<string>,
    sexCd: Option<string>,
    lat: Coord,
    lng: Coord)

  /** The year of a record's intake date (`df['happenDt'].dt.year`). */
  function Year(r: Record): int {
    r.happenDt.year
  }

  /** The year column of a table. */
  function Years(records: seq<Record>): (ys: seq<int>)
    ensures |ys| == |records|
    ensures forall i :: 0 <= i < |records| ==> ys[i] == Year(records[i])
  {
    if records == [] then [] else [Year(records[0])] + Years(records[1..])
  }

  /** The years of a table, each once, in order of first appearance
      (`df['happenDt'].dt.year.unique().tolist()`): the choices offered by
      the year selectors. */
  function SelectableYears(records: seq<Record>): seq<int> {
    Distinct(Years(records))
  }

  /** Every selectable year is the year of some record, and each is offered
      once. */
  lemma SelectableYearsSpec(records: seq<Record>)
    ensures NoDuplicates(SelectableYears(records))
    ensures forall y :: y in SelectableYears(records) <==> exists r :: r in records && Year(r) == y
  {
    DistinctSpec(Years(records));
    forall y ensures y in SelectableYears(records) <==> exists r :: r in records && Year(r) == y {
      if y in Years(records) {
        var i :| 0 <= i < |records| && Years(records)[i] == y;
        assert records[i] in records;
      }
      if exists r :: r in records && Year(r) == y {
        var r :| r in records && Year(r) == y;
        var i :| 0 <= i < |records| && records[i] == r;
        assert Years(records)[i] == y;
      }
    }
  }
}
