# Shelter dashboard data core, in Dafny

This project models the data side of `final_report.py`, a Streamlit
dashboard over a table of abandoned-animal intake cases in Korea. One CSV
row is one case: the shelter name (`careNm`), the intake date
(`happenDt`, written YYYYMMDD), the outcome (`processState`), the neuter
and sex codes, and the shelter's coordinates.

The model covers:

- `load_data`. It strips every parenthesised segment from the shelter
  name, parses the intake date, and adds the coarse outcome class
  (Death, Alive or "Under care").
- The Overview page. This gives intake counts for the selected years, the
  total count of distinct shelters, and distinct shelter names per
  selected year.
- The Report page. This gives the frequency tables of the outcome class
  and of the relabelled neuter and sex codes, the class-by-code tables,
  and the adoption count of every shelter.
- The Advanced Report page. This covers the Good / Okay / Bad tiers, the
  tier counts, the tier filter and the top-N slice.

Modules:

- `Collections`: occurrence counts, first-occurrence duplicate removal
  (pandas `unique` / `drop_duplicates`), grouping with sizes, and lookup.
- `Ordering`: `value_counts` (groups sorted by size, largest first) and
  the ascending key sort of `groupby`.
- `Intake`: the raw and the loaded rows.
- `Loader`: `load_data`, both as a pure function (`Load`) and as the
  column-by-column method (`LoadData`) proved equal to it.
- `Aggregates`: the Overview and Report summaries.
- `Ranking`: the adoption summary, tiers, tier filter and top-N.

pandas results are modelled as sequences:

- A Series of sizes is a sequence of `Counted(key, count)` rows.
- NaN is `None`.
- A raised exception is a `Failure` value.

In three places the code does something a reader might not expect, and
the model follows the code:

- `re.sub` removes every `(...)` segment of a name, not only the first.
- `Series.replace` passes an unlisted `processState` value through
  unchanged rather than failing. The class column then holds the raw value.
- The "selected years" shelter metric at line 118 ignores the year
  selection. It is the global distinct-coordinate count
  (`SelectedYearShelterCount`).

## Model

| member | source | states |
|---|---|---|
| Loader.StripParens | final_report.py:53 | `re.sub(r'\([^)]*\)', '', name)`: deletes each `(` together with everything up to the first `)` after it, scanning left to right; an unmatched `(` is kept. Its contract is stated by the lemmas below, chiefly StripParensSplit and StripParensIdentity. |
| Loader.StripParensSplit | final_report.py:53 | Text before the first `(` is kept, the leftmost `(` and everything up to the first `)` after it are deleted, and the rest of the name is stripped in turn. |
| Loader.StripParensKeepsTail | final_report.py:53 | "A(b)C" becomes "AC": the text after a match is kept. |
| Loader.StripParensDeletes | final_report.py:53 | Stripping only deletes: the result is a subsequence of the name (characters removed, the rest kept in order), so it is no longer and uses only the name's characters. |
| Loader.StripParensLeavesNoMatch | final_report.py:53 | After stripping, no `(` is followed by a `)`, so the pattern matches nowhere in the result. |
| Loader.StripParensIdentity | final_report.py:53 | A name is left unchanged exactly when no `(` precedes a `)` in it (both directions). |
| Loader.StripParensShrinks | final_report.py:53 | A name containing a `(` followed later by a `)` becomes strictly shorter. |
| Loader.StripParensIdempotent | final_report.py:53 | Stripping twice gives the same name as stripping once. |
| Loader.StripParensNoOpen | final_report.py:53 | A name without `(` is unchanged. |
| Loader.StripParensExample | final_report.py:53 | "Care(A)" becomes "Care". |
| Loader.ParseDate | final_report.py:55 | On success: the value is 8 digits, the date is a real Gregorian day within the pandas timestamp range, and its year is the number written by the first four digits. Otherwise it fails with an error naming the value. |
| Loader.FormatThenParse | final_report.py:55 | Every representable day, written as YYYYMMDD, parses back to itself. |
| Loader.ParseThenFormat | final_report.py:55 | Every accepted value is the YYYYMMDD form of its parsed date. |
| Loader.InRangeYear | final_report.py:55 | A parsed date's year lies between 1677 and 2262. |
| Loader.ClassOf | final_report.py:57-64 | A listed state maps to Death, Alive or "Under care"; any other value passes through unchanged. |
| Loader.OutcomeTable | final_report.py:57-64 | The eight listed states and their classes: two Death, five Alive, one "Under care". |
| Loader.LoadRow | final_report.py:53-64 | A row loads exactly when its date parses, and otherwise fails with that date's error. A loaded record holds the stripped name, the parsed date, the raw state, ClassOf's class, and the other columns copied. |
| Loader.Load | final_report.py:50-65 | The load succeeds exactly when every row loads, with one loaded record per row in order. Otherwise it fails with the error of the first bad row. |
| Loader.StripNames | final_report.py:53 | The name column pass: one stripped name per row, in order. |
| Loader.ParseDates | final_report.py:55 | The date column pass. On success there is one parsed date per row, in order. On failure its error is the error of the whole load. |
| Loader.ClassColumn | final_report.py:57-64 | The class column pass: one class per row, in order. |
| Loader.LoadData | final_report.py:50-65 | The column-by-column passes (names, then dates raising on the first bad one, then classes) give the same result as `Load`. |
| Loader.LoadSucceeds | final_report.py:50-65 | When every row loads, the table is those records in order. |
| Loader.LoadFailsAt | final_report.py:55 | The first row whose date fails decides the load's error. |
| Loader.LoadedRecords | final_report.py:50-65 | Every record of a loaded table has a name with no `(...)` match, a real day within the timestamp range whose year is the raw value's first four digits, and a class in place of any listed state. |
| Intake.SelectableYears | final_report.py:82 | `df['happenDt'].dt.year.unique()`: the years of the records, first occurrence first, each once (see SelectableYearsSpec). |
| Intake.SelectableYearsSpec | final_report.py:82 | The year choices are each offered once and are exactly the years of the records. |
| Aggregates.FilterYears | final_report.py:85 | A record is kept exactly when its year is selected. |
| Aggregates.FilterYearsCounts | final_report.py:85 | The filtered table has every record of each selected year and none of any other year. |
| Aggregates.FilterYearsLength | final_report.py:85 | The filtered table has as many rows as the table has records of the selected years. |
| Aggregates.YearCounts | final_report.py:85-87 | The per-year counts of the filtered records, reindexed by the selection (see YearCountsSpec). |
| Aggregates.YearCountsSpec | final_report.py:86-87 | The series is keyed by the selection, in selection order. Entry i is the number of records of year i, or NaN when there are none. |
| Aggregates.YearTotal | final_report.py:89 | `sum()` of the reindexed counts, NaN entries skipped (see YearTotalSpec). |
| Aggregates.YearTotalSpec | final_report.py:89 | With distinct selected years, the metric equals the number of filtered records. |
| Aggregates.SelectedYearsHaveRecords | final_report.py:81-87 | Years chosen from the offered list all have a count of at least one. |
| Aggregates.ShelterCount | final_report.py:106 | The shelter total is the number of distinct (lat, lng) pairs. |
| Aggregates.SelectedYearShelterCount | final_report.py:118 | The "selected years" shelter metric is the global distinct-coordinate count, whatever is selected. |
| Aggregates.NamesInYear | final_report.py:116 | The names listed for a year are exactly the names of that year's records. |
| Aggregates.UniqueNamesPerYear | final_report.py:116 | One row per year key, each counting the distinct names of that year. |
| Aggregates.SheltersByYear | final_report.py:115-116 | `groupby(year)['careNm'].nunique()` over the filtered records (see SheltersByYearKeys and SheltersByYearCounts). |
| Aggregates.SheltersByYearKeys | final_report.py:115-116 | The years listed are exactly the selected years that have records, strictly ascending. |
| Aggregates.SheltersByYearCounts | final_report.py:115-116 | Each year's value is the number of distinct shelter names among that year's records, at least one. |
| Aggregates.OutcomeCounts | final_report.py:142 | `value_counts()` of the class column (see OutcomeCountsSpec). |
| Aggregates.OutcomeCountsSpec | final_report.py:142 | One row per class present, largest first, with counts summing to the number of records. |
| Aggregates.PresentCodes | final_report.py:146 | The non-missing codes: no more than the records, exactly the codes that occur. |
| Aggregates.Relabel | final_report.py:148 | Succeeds exactly when every key has a label. The failure names an unlabelled key, like KeyError. On success each key is replaced by its label and the counts are kept. |
| Aggregates.LabelCounts | final_report.py:146-148 | `value_counts()` of a code column with each code replaced by its label (see LabelCountsFailure, LabelCountsTable and LabelCountsRows). |
| Aggregates.NeuterCounts | final_report.py:146-148 | LabelCounts on `neuterYn` with the labels of line 147 (see KnownCodes). |
| Aggregates.SexCounts | final_report.py:152-154 | LabelCounts on `sexCd` with the labels of line 153 (see KnownCodes). |
| Aggregates.LabelCountsFailure | final_report.py:146-148 | The neuter (or sex) table fails exactly when some record's code has no label, and the error names that code. |
| Aggregates.LabelCountsTable | final_report.py:146-154 | When the table succeeds, it has one row per distinct non-missing code, and every present code has a label and a row holding that label with the code's count. Rows go largest first and the counts sum to the number of non-missing codes. |
| Aggregates.LabelCountsRows | final_report.py:146-154 | When the table succeeds, each row is a code's label with the number of records holding that code, at least one. |
| Aggregates.KnownCodes | final_report.py:147 | Y, N and U become Yes, No and Unknown; M, F and Q become male, female and unknown. No other code has a label. |
| Aggregates.RenameColumns | final_report.py:163 | Listed column labels are renamed and the others are kept. Rows and cells are untouched. |
| Aggregates.Unstack | final_report.py:162 | `groupby([class, code]).size().unstack(fill_value=0)` (see UnstackKeys, UnstackCells and UnstackTotal). |
| Aggregates.NeuterByClass | final_report.py:162-163 | Unstack of the (class, neuter code) pairs with the columns renamed by line 163's labels (see RenameColumns and ByClassTotals). |
| Aggregates.SexByClass | final_report.py:167 | Unstack of the (class, sex code) pairs, columns not renamed (see UnstackKeys, UnstackCells and ByClassTotals). |
| Aggregates.UnstackKeys | final_report.py:162 | The rows are the classes and the columns are the codes that occur, each once and ascending. |
| Aggregates.UnstackCells | final_report.py:162 | Each cell counts its (class, code) pair, so an absent combination is 0. |
| Aggregates.UnstackTotal | final_report.py:162 | The cells add up to the number of pairs. |
| Aggregates.ByClassTotals | final_report.py:162-168 | Both class-by-code tables add up to the number of records with a non-missing code. |
| Ranking.AliveKeys | final_report.py:174 | The keys are exactly the (careNm, lat, lng) of the Alive records. |
| Ranking.AliveKeysLength | final_report.py:174 | There is one key per Alive record, as many as the Alive row of the outcome table counts. |
| Ranking.AdoptionSummary | final_report.py:174 | The Alive records grouped by (careNm, lat, lng) and sorted by size, largest first (see AdoptionSummarySpec). |
| Ranking.AdoptionSummarySpec | final_report.py:174 | One row per shelter with an Alive record. The rows are distinct and in non-increasing order. Each count is that shelter's Alive records, at least one. The counts add up to the number of Alive records. |
| Ranking.AdoptionSummaryLength | final_report.py:174 | There are as many rows as distinct (careNm, lat, lng) keys among the Alive records. |
| Ranking.Select | final_report.py:201 | The choice of the first condition that holds, or the default when none holds. |
| Ranking.TierOf | final_report.py:195-201 | `np.select` over the three conditions of lines 196-198 with the labels of line 200 (see TierOfSpec). |
| Ranking.TierOfSpec | final_report.py:195-201 | At least 800 is Good, at most 100 is Bad, and anything in between is Okay. The default is never produced (both directions). |
| Ranking.WithTiers | final_report.py:201 | Adds the tier column. Rows, their order and their adoptions are unchanged. |
| Ranking.TieredSummary | final_report.py:194-201 | The adoption summary with the tier column added (see TieredSummarySpec). |
| Ranking.TieredSummarySpec | final_report.py:194-201 | Every tier matches its adoptions, and the table stays sorted largest first. |
| Ranking.TierFilter | final_report.py:215 | The rows of one tier in table order, never more than the table (see TierFilterMembers, TierFilterAppend and TierFilterNonIncreasing). |
| Ranking.TierFilterMembers | final_report.py:215 | Keeps exactly the rows of the chosen tier. |
| Ranking.TierFilterAppend | final_report.py:215 | Filtering distributes over concatenation, so the relative order is kept. |
| Ranking.TierFilterNonIncreasing | final_report.py:215 | Filtering a table sorted largest first keeps it sorted. |
| Ranking.TierCount | final_report.py:203-212 | The number of rows of one tier (see TierCountsTotal and TierReport). |
| Ranking.TierCountsTotal | final_report.py:203-212 | When tiers are consistent, the Good, Okay and Bad counts add up to the number of rows. |
| Ranking.TierReport | final_report.py:194-215 | The three counts add up to the number of distinct shelters with an adoption. Each tier lists exactly the shelters in its range, largest first. |
| Ranking.TopN | final_report.py:219 | The first min(n, length) rows, in order. |
| Ranking.TopNIsBest | final_report.py:219 | On a table sorted by adoptions, no row left out has more adoptions than a row kept. |
| Ordering.ValueCountsSpec | final_report.py:142 | `value_counts` gives one row per distinct value. The rows are sorted largest first, each counts its value, and the counts sum to the length. |
| Ordering.ValueCountsPermutation | final_report.py:174 | The sort by adoptions is a permutation of the groups: none is lost, added or changed. |
| Collections.GroupSpec | final_report.py:86 | A group-by-size has one row per distinct value, each counted, and the counts sum to the length. The rows come in first-occurrence order, where pandas sorts the keys ascending; the order is never observed, because line 87 reindexes by the selection and line 174 sorts by count. |
| Collections.LookupGroup | final_report.py:87 | Looking a value up in its grouping gives its count, or nothing when it does not occur. |
| Collections.DistinctSpec | final_report.py:82 | `unique` keeps each value once and no other values. |
| Collections.DistinctCard | final_report.py:106 | The number of distinct values is the size of their set. |

## Left out

- User interface, charts and maps: page selection, widgets, Plotly figures, Folium and GeoJSON maps, marker loops and popups.
- CSV and GeoJSON reading and Streamlit caching: I/O. The model starts from the rows as read.
- Marker radius `Adoptions/300` is left out as floating point. Latitude and longitude are kept only as opaque equality keys (`Intake.Coord`), because the code only groups on them and removes duplicates.
- Missing values in the name, date, `processState`, latitude and longitude columns are not modelled: every raw row has a text name, a text date and coordinates. In the source a missing name makes `re.sub` at line 53 raise TypeError, so the whole load fails. A missing date turns the CSV column into floats, whose text (such as "20210301.0") the `%Y%m%d` format at line 55 does not accept. A missing coordinate or class would drop the row from the groupby at line 174.
- The default selection `unique().tolist()[3]` at line 83 is a widget argument. It raises IndexError when the data has fewer than four years; that is not modelled.
- The second `'Report'` branch (lines 266-324) is left out because it can never run: it repeats a condition an earlier branch already handles.
- Ordering.SortByCount: rows with equal counts come out in one fixed order. pandas' `sort_values` does not promise any order for ties, so no contract speaks about tie order.
- Loader.ParseDate: accepts exactly eight digits. The more lenient inputs that pandas' `%Y%m%d` parsing may accept (fewer digits, surrounding spaces) are treated as failures.
- Loader.LoadData: each column pass builds a new sequence instead of overwriting a DataFrame column in place.
- Ranking.TierOf: the default of `np.select` at line 201 is the integer 0 while the choices are strings. Some NumPy versions refuse to combine the two types and raise before any row is tiered; the model assumes line 201 returns, with the default as `NoTier`, which TierOfSpec shows is never chosen.
- Ranking.WithTiers: returns a new table instead of adding the `Adoptions_Group` column to `df_sorted` in place (line 201).
- Adoption counts and year numbers are unbounded integers. The int64 limits are never reached for a table that fits in memory.
