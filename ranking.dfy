/** The shelter ranking of the Report and Advanced Report pages: adoptions
    per shelter, the Good / Okay / Bad tiers, the tier filter and the
    top-N slice. */
module Ranking {
  import opened Collections
  import opened Ordering
  import opened Intake
  import Loader
  import Aggregates

  // ---------------------------------------------------------------------
  // Adoptions per shelter (final_report.py line 174, repeated at 177, 194)
  // ---------------------------------------------------------------------

  /** The `['careNm', 'lat', 'lng']` group key. */
  datatype ShelterKey = ShelterKey(careNm: string, lat: Coord, lng: Coord)

  function KeyOf(r: Record): ShelterKey {
    ShelterKey(r.careNm, r.lat, r.lng)
  }

  /** The group keys of the records whose class is Alive, in table order. */
  function AliveKeys(records: seq<Record>): (ks: seq<ShelterKey>)
    ensures forall k :: k in ks <==> exists r :: r in records && r.processStateClass == Loader.Alive && KeyOf(r) == k
  {
    if records == [] then []
    else
      var rest := AliveKeys(records[1..]);
      assert forall r :: r in records[1..] ==> r in records;
      assert forall r :: r in records ==> r == records[0] || r in records[1..];
      (if records[0].processStateClass == Loader.Alive then [KeyOf(records[0])] else []) + rest
  }

  /** There is one key per Alive record: as many as the Alive row of the
      outcome-class table counts. */
  lemma {:induction false} AliveKeysLength(records: seq<Record>)
    ensures |AliveKeys(records)| == Count(Aggregates.Classes(records), Loader.Alive)
  {
    if records != [] {
      AliveKeysLength(records[1..]);
      assert Aggregates.Classes(records) == [records[0].processStateClass] + Aggregates.Classes(records[1..]);
    }
  }

  /** `df[class == 'Alive'].groupby(['careNm', 'lat', 'lng']).size()
      .reset_index(name='Adoptions').sort_values(by='Adoptions',
      ascending=False)`: one row per shelter with its adoptions, largest
      first. */
  function AdoptionSummary(records: seq<Record>): seq<Counted<ShelterKey>> {
    ValueCounts(AliveKeys(records))
  }

  /** The summary lists exactly the shelters with an Alive record, each
      once, largest first; a row counts that shelter's Alive records (at
      least one), and the adoptions add up to the number of Alive records. */
  lemma AdoptionSummarySpec(records: seq<Record>)
    ensures NonIncreasing(AdoptionSummary(records)) && KeysDistinct(AdoptionSummary(records))
    ensures forall k :: k in Keys(AdoptionSummary(records)) <==>
      exists r :: r in records && r.processStateClass == Loader.Alive && KeyOf(r) == k
    ensures forall i :: 0 <= i < |AdoptionSummary(records)| ==>
      AdoptionSummary(records)[i].count == Count(AliveKeys(records), AdoptionSummary(records)[i].key) >= 1
    ensures SumCounts(AdoptionSummary(records)) == Count(Aggregates.Classes(records), Loader.Alive)
  {
    ValueCountsSpec(AliveKeys(records));
    AliveKeysLength(records);
  }

  /** There are as many rows as distinct shelters with an Alive record. */
  lemma AdoptionSummaryLength(records: seq<Record>)
    ensures |AdoptionSummary(records)| == |set r | r in records && r.processStateClass == Loader.Alive :: KeyOf(r)|
  {
    var ks := AliveKeys(records);
    ValueCountsSpec(ks);
    var a, b := set k | k in ks, set r | r in records && r.processStateClass == Loader.Alive :: KeyOf(r);
    forall k | k in a ensures k in b {
      var r :| r in records && r.processStateClass == Loader.Alive && KeyOf(r) == k;
    }
    assert a == b;
  }

  // ---------------------------------------------------------------------
  // Tiers (lines 195-201)
  // ---------------------------------------------------------------------

  /** The three labels, and `NoTier` for the default 0 that `np.select`
      uses when no condition holds. */
  datatype Tier = Good | Bad | Okay | NoTier

  const GoodFloor: nat := 800
  const BadCeiling: nat := 100

  /** `np.select(conditions, choices, default)`: the choice of the first
      condition that holds, the default when none does. */
  function Select<T>(conds: seq<bool>, choices: seq<T>, default: T): (r: T)
    requires |conds| == |choices|
    ensures forall i :: 0 <= i < |conds| && conds[i] && (forall j :: 0 <= j < i ==> !conds[j]) ==> r == choices[i]
    ensures (forall i :: 0 <= i < |conds| ==> !conds[i]) ==> r == default
  {
    if conds == [] then default
    else if conds[0] then choices[0]
    else
      var r := Select(conds[1..], choices[1..], default);
      assert forall i :: 1 <= i < |conds| ==> conds[i] == conds[1..][i - 1] && choices[i] == choices[1..][i - 1];
      r
  }

  /** The conditions of lines 196-198 in their order, with the labels of
      line 200. */
  function TierOf(adoptions: nat): Tier {
    Select([adoptions >= GoodFloor, adoptions <= BadCeiling, adoptions < GoodFloor && adoptions > BadCeiling],
           [Good, Bad, Okay], NoTier)
  }

  /** At least 800 adoptions is Good, at most 100 is Bad, anything between
      is Okay; the three conditions never overlap and always cover the
      count, so the default is never used. */
  lemma TierOfSpec(adoptions: nat)
    ensures TierOf(adoptions) == Good <==> adoptions >= 800
    ensures TierOf(adoptions) == Bad <==> adoptions <= 100
    ensures TierOf(adoptions) == Okay <==> 100 < adoptions < 800
    ensures TierOf(adoptions) != NoTier
  {
    var conds := [adoptions >= GoodFloor, adoptions <= BadCeiling, adoptions < GoodFloor && adoptions > BadCeiling];
    if adoptions >= GoodFloor {
      assert conds[0];
    } else if adoptions <= BadCeiling {
      assert !conds[0] && conds[1];
    } else {
      assert !conds[0] && !conds[1] && conds[2];
    }
  }

  /** A row of `df_sorted` once line 201 has added `Adoptions_Group`. */
  datatype TieredRow = TieredRow(shelter: ShelterKey, adoptions: nat, tier: Tier)

  /** `df_sorted['Adoptions_Group'] = np.select(...)`: the table with the
      tier column added, rows unchanged and in the same order. */
  function WithTiers(rows: seq<Counted<ShelterKey>>): (t: seq<TieredRow>)
    ensures |t| == |rows|
    ensures forall i :: 0 <= i < |rows| ==>
      t[i].shelter == rows[i].key && t[i].adoptions == rows[i].count && t[i].tier == TierOf(rows[i].count)
  {
    if rows == [] then [] else [TieredRow(rows[0].key, rows[0].count, TierOf(rows[0].count))] + WithTiers(rows[1..])
  }

  /** The Advanced Report table. */
  function TieredSummary(records: seq<Record>): seq<TieredRow> {
    WithTiers(AdoptionSummary(records))
  }

  /** Every row's tier is the one its adoptions call for. */
  ghost predicate TiersConsistent(t: seq<TieredRow>) {
    forall i :: 0 <= i < |t| ==> t[i].tier == TierOf(t[i].adoptions)
  }

  ghost predicate AdoptionsNonIncreasing(t: seq<TieredRow>) {
    forall i, j :: 0 <= i < j < |t| ==> t[i].adoptions >= t[j].adoptions
  }

  /** The tiered table keeps the summary's order and every row's tier is
      consistent. */
  lemma TieredSummarySpec(records: seq<Record>)
    ensures TiersConsistent(TieredSummary(records))
    ensures AdoptionsNonIncreasing(TieredSummary(records))
    ensures |TieredSummary(records)| == |AdoptionSummary(records)|
  {
    AdoptionSummarySpec(records);
  }

  // ---------------------------------------------------------------------
  // Tier filter and tier counts (lines 203-215)
  // ---------------------------------------------------------------------

  /** `df_sorted[df_sorted['Adoptions_Group'] == option]`: the rows of one
      tier, in table order. */
  function TierFilter(t: seq<TieredRow>, tier: Tier): (f: seq<TieredRow>)
    ensures |f| <= |t|
  {
    if t == [] then []
    else (if t[0].tier == tier then [t[0]] else []) + TierFilter(t[1..], tier)
  }

  /** The filter keeps exactly the rows of the chosen tier. */
  lemma {:induction false} TierFilterMembers(t: seq<TieredRow>, tier: Tier)
    ensures forall x :: x in TierFilter(t, tier) <==> x in t && x.tier == tier
  {
    if t != [] {
      TierFilterMembers(t[1..], tier);
      assert t == [t[0]] + t[1..];
    }
  }

  /** Filtering distributes over concatenation, so it never reorders rows. */
  lemma {:induction false} TierFilterAppend(a: seq<TieredRow>, b: seq<TieredRow>, tier: Tier)
    ensures TierFilter(a + b, tier) == TierFilter(a, tier) + TierFilter(b, tier)
  {
    if a == [] {
      assert a + b == b;
    } else {
      var head := if a[0].tier == tier then [a[0]] else [];
      assert (a + b)[0] == a[0];
      assert (a + b)[1..] == a[1..] + b;
      TierFilterAppend(a[1..], b, tier);
      assert TierFilter(a + b, tier) == head + TierFilter(a[1..] + b, tier);
      assert TierFilter(a, tier) == head + TierFilter(a[1..], tier);
    }
  }

  /** Filtering rows with at most `b` adoptions leaves rows with at most
      `b` adoptions. */
  lemma {:induction false} TierFilterBound(t: seq<TieredRow>, tier: Tier, b: nat)
    requires forall i :: 0 <= i < |t| ==> t[i].adoptions <= b
    ensures forall i :: 0 <= i < |TierFilter(t, tier)| ==> TierFilter(t, tier)[i].adoptions <= b
  {
    if t != [] {
      TierFilterBound(t[1..], tier, b);
    }
  }

  /** A table sorted by adoptions stays sorted once filtered. */
  lemma {:induction false} TierFilterNonIncreasing(t: seq<TieredRow>, tier: Tier)
    requires AdoptionsNonIncreasing(t)
    ensures AdoptionsNonIncreasing(TierFilter(t, tier))
  {
    if t != [] {
      var tail := t[1..];
      assert AdoptionsNonIncreasing(tail) by {
        forall i, j | 0 <= i < j < |tail| ensures tail[i].adoptions >= tail[j].adoptions {
          assert tail[i] == t[i + 1] && tail[j] == t[j + 1];
        }
      }
      TierFilterNonIncreasing(tail, tier);
      if t[0].tier == tier {
        assert forall i :: 0 <= i < |tail| ==> tail[i].adoptions <= t[0].adoptions by {
          forall i | 0 <= i < |tail| ensures tail[i].adoptions <= t[0].adoptions {
            assert tail[i] == t[i + 1];
          }
        }
        TierFilterBound(tail, tier, t[0].adoptions);
        ConsNonIncreasing(t[0], TierFilter(tail, tier));
      }
    }
  }

  /** A row with at least as many adoptions as every row of a sorted table
      can go in front of it. */
  lemma ConsNonIncreasing(x: TieredRow, t: seq<TieredRow>)
    requires AdoptionsNonIncreasing(t)
    requires forall i :: 0 <= i < |t| ==> t[i].adoptions <= x.adoptions
    ensures AdoptionsNonIncreasing([x] + t)
  {
    var f := [x] + t;
    forall i, j | 0 <= i < j < |f| ensures f[i].adoptions >= f[j].adoptions {
      assert f[j] == t[j - 1];
      if i > 0 { assert f[i] == t[i - 1]; }
    }
  }

  /** The number of shelters shown under a tier (`shape[0]` of lines 205,
      208 and 211). */
  function TierCount(t: seq<TieredRow>, tier: Tier): nat {
    |TierFilter(t, tier)|
  }

  /** When tiers are consistent every row is in exactly one of Good, Okay
      and Bad, so the three counts add up to the number of rows. */
  lemma {:induction false} TierCountsTotal(t: seq<TieredRow>)
    requires TiersConsistent(t)
    ensures TierCount(t, Good) + TierCount(t, Okay) + TierCount(t, Bad) == |t|
  {
    if t != [] {
      TierOfSpec(t[0].adoptions);
      assert TiersConsistent(t[1..]) by {
        forall i | 0 <= i < |t[1..]| ensures t[1..][i].tier == TierOf(t[1..][i].adoptions) {
          assert t[1..][i] == t[i + 1];
        }
      }
      TierCountsTotal(t[1..]);
    }
  }

  /** The Advanced Report's three numbers add up to the number of shelters
      with an adoption, and each tier lists exactly the shelters whose
      adoptions fall in its range, largest first. */
  lemma TierReport(records: seq<Record>, tier: Tier)
    requires tier != NoTier
    ensures var t := TieredSummary(records);
      TierCount(t, Good) + TierCount(t, Okay) + TierCount(t, Bad) ==
        |set r | r in records && r.processStateClass == Loader.Alive :: KeyOf(r)|
    ensures AdoptionsNonIncreasing(TierFilter(TieredSummary(records), tier))
    ensures forall x :: x in TierFilter(TieredSummary(records), tier) <==>
      x in TieredSummary(records) && TierOf(x.adoptions) == tier
  {
    var t := TieredSummary(records);
    TieredSummarySpec(records);
    AdoptionSummaryLength(records);
    TierCountsTotal(t);
    TierFilterNonIncreasing(t, tier);
    TierFilterMembers(t, tier);
    forall x | x in t ensures x.tier == TierOf(x.adoptions) {
      var i :| 0 <= i < |t| && t[i] == x;
    }
  }

  // ---------------------------------------------------------------------
  // Top N (lines 217-219)
  // ---------------------------------------------------------------------

  /** `df_sorted[0:n]`: the first `n` rows, or all of them when there are
      fewer. */
  function TopN(t: seq<TieredRow>, n: nat): (r: seq<TieredRow>)
    ensures |r| == if n < |t| then n else |t|
    ensures forall i :: 0 <= i < |r| ==> r[i] == t[i]
  {
    if n < |t| then t[..n] else t
  }

  /** On a table sorted by adoptions, no shelter left out of the top `n`
      has more adoptions than one kept in it. */
  lemma TopNIsBest(t: seq<TieredRow>, n: nat)
    requires AdoptionsNonIncreasing(t)
    ensures forall x, j :: x in TopN(t, n) && |TopN(t, n)| <= j < |t| ==> x.adoptions >= t[j].adoptions
  {
    var r := TopN(t, n);
    forall x, j | x in r && |r| <= j < |t| ensures x.adoptions >= t[j].adoptions {
      var i :| 0 <= i < |r| && r[i] == x;
      assert t[i] == x;
    }
  }
}
