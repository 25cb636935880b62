/** The one-off migration of migrate_to_stage_country.py: recover the (stage, country) pairs of the
    old `association` table, clear StageCountry, and number each stage's pairs 1, 2, ... in the
    order they were read, with one counter per stage. */
module Migration {
  import opened Wrappers
  import opened Seqs
  import opened Models
  import opened Ordering

  // ---- the per-stage counter ----

  /** The pairs of one stage, in input order. */
  function PairsOfStage(pairs: seq<AssocRow>, sid: Id): seq<AssocRow>
  {
    Filter(pairs, (x: AssocRow) => x.stageId == sid)
  }

  /** How many pairs of stage `sid` there are: what the stage's counter holds after them. */
  function Count(pairs: seq<AssocRow>, sid: Id): nat
  {
    |PairsOfStage(pairs, sid)|
  }

  /** The intended numbering: the pair at index i becomes a row whose order is one more than the
      number of earlier pairs of the same stage. */
  function Renumber(pairs: seq<AssocRow>): seq<StageCountry>
  {
    seq(|pairs|, i requires 0 <= i < |pairs| =>
      StageCountry(pairs[i].stageId, pairs[i].countryId, Count(pairs[..i], pairs[i].stageId) + 1))
  }

  lemma PairsOfStageSnoc(pairs: seq<AssocRow>, x: AssocRow, sid: Id)
    ensures PairsOfStage(pairs + [x], sid) == PairsOfStage(pairs, sid) + (if x.stageId == sid then [x] else [])
  {
    assert (pairs + [x])[..|pairs|] == pairs;
  }

  lemma RenumberSnoc(pairs: seq<AssocRow>, x: AssocRow)
    ensures Renumber(pairs + [x])
            == Renumber(pairs) + [StageCountry(x.stageId, x.countryId, Count(pairs, x.stageId) + 1)]
  {
    var a := Renumber(pairs + [x]);
    var b := Renumber(pairs) + [StageCountry(x.stageId, x.countryId, Count(pairs, x.stageId) + 1)];
    forall i | 0 <= i < |a| ensures a[i] == b[i] {
      if i < |pairs| {
        assert (pairs + [x])[..i] == pairs[..i];
      } else {
        assert (pairs + [x])[..i] == pairs;
      }
    }
  }

  /** `stage_counters` as the loop keeps it: a stage is a key once one of its pairs is seen, and
      its value is the number of its pairs seen so far. */
  ghost predicate CountersMatch(counters: map<Id, int>, seen: seq<AssocRow>)
  {
    && (forall sid :: sid in counters ==> counters[sid] == Count(seen, sid) && Count(seen, sid) > 0)
    && (forall sid :: sid !in counters ==> Count(seen, sid) == 0)
  }

  /** The counter loop of `migrate_database()`: a dictionary of per-stage counters, starting a
      stage at 1 and incrementing it on each further pair of that stage. */
  method RenumberPairs(pairs: seq<AssocRow>) returns (rows: seq<StageCountry>)
    ensures rows == Renumber(pairs)
  {
    var counters: map<Id, int> := map[];
    rows := [];
    for i := 0 to |pairs|
      invariant rows == Renumber(pairs[..i])
      invariant CountersMatch(counters, pairs[..i])
    {
      var p := pairs[i];
      if p.stageId !in counters {
        counters := counters[p.stageId := 1];
      } else {
        counters := counters[p.stageId := counters[p.stageId] + 1];
      }
      assert pairs[..i + 1] == pairs[..i] + [p];
      forall sid ensures Count(pairs[..i + 1], sid) == Count(pairs[..i], sid) + (if p.stageId == sid then 1 else 0) {
        PairsOfStageSnoc(pairs[..i], p, sid);
      }
      RenumberSnoc(pairs[..i], p);
      rows := rows + [StageCountry(p.stageId, p.countryId, counters[p.stageId])];
    }
    assert pairs[..|pairs|] == pairs;
  }

  /** One row per pair, carrying the pair's stage and country. */
  lemma RenumberKeepsPairs(pairs: seq<AssocRow>)
    ensures |Renumber(pairs)| == |pairs|
    ensures forall i :: 0 <= i < |pairs| ==>
              Renumber(pairs)[i].stageId == pairs[i].stageId && Renumber(pairs)[i].countryId == pairs[i].countryId
  {
  }

  /** A stage's row count is its number of pairs. */
  lemma {:induction false} RowsOfStageCount(pairs: seq<AssocRow>, sid: Id)
    ensures |RowsOfStage(Renumber(pairs), sid)| == Count(pairs, sid)
    decreases |pairs|
  {
    if |pairs| > 0 {
      var p, x := pairs[..|pairs| - 1], pairs[|pairs| - 1];
      assert pairs == p + [x];
      RowsOfStageCount(p, sid);
      RenumberSnoc(p, x);
      RowsOfStageSnoc(Renumber(p), StageCountry(x.stageId, x.countryId, Count(p, x.stageId) + 1), sid);
      PairsOfStageSnoc(p, x, sid);
    }
  }

  /** The k-th pair of a stage gets order k, so every stage is numbered 1..n with n its number
      of pairs. */
  lemma {:induction false} RenumberContiguous(pairs: seq<AssocRow>)
    ensures Contiguous(Renumber(pairs))
    ensures forall sid :: StageOrders(Renumber(pairs), sid) == OneTo(Count(pairs, sid))
    decreases |pairs|
  {
    if |pairs| == 0 {
      assert Renumber(pairs) == [];
      forall sid ensures StageOrders([], sid) == OneTo(0) {
        assert OneTo(0) == [];
      }
    } else {
      var p, x := pairs[..|pairs| - 1], pairs[|pairs| - 1];
      assert pairs == p + [x];
      RenumberContiguous(p);
      RenumberSnoc(p, x);
      RowsOfStageCount(p, x.stageId);
      NextOrderAfterRun(Renumber(p), x.stageId);
      AppendNextKeepsContiguous(Renumber(p), x.stageId, x.countryId);
      forall sid ensures StageOrders(Renumber(pairs), sid) == OneTo(Count(pairs, sid)) {
        RowsOfStageCount(pairs, sid);
      }
    }
  }

  lemma {:induction false} PairsOfStageTwice(pairs: seq<AssocRow>, sid: Id)
    ensures PairsOfStage(PairsOfStage(pairs, sid), sid) == PairsOfStage(pairs, sid)
    decreases |pairs|
  {
    if |pairs| > 0 {
      var p, x := pairs[..|pairs| - 1], pairs[|pairs| - 1];
      assert pairs == p + [x];
      PairsOfStageTwice(p, sid);
      PairsOfStageSnoc(p, x, sid);
      if x.stageId == sid {
        PairsOfStageSnoc(PairsOfStage(p, sid), x, sid);
      } else {
        assert PairsOfStage(pairs, sid) == PairsOfStage(p, sid);
      }
    }
  }

  /** The counters are independent: a stage's rows are what renumbering its pairs alone would
      give, whatever pairs of other stages are interleaved. */
  lemma {:induction false} RenumberPerStage(pairs: seq<AssocRow>, sid: Id)
    ensures RowsOfStage(Renumber(pairs), sid) == Renumber(PairsOfStage(pairs, sid))
    decreases |pairs|
  {
    if |pairs| == 0 {
      assert Renumber(pairs) == [];
    } else {
      var p, x := pairs[..|pairs| - 1], pairs[|pairs| - 1];
      assert pairs == p + [x];
      RenumberPerStage(p, sid);
      RenumberSnoc(p, x);
      RowsOfStageSnoc(Renumber(p), StageCountry(x.stageId, x.countryId, Count(p, x.stageId) + 1), sid);
      PairsOfStageSnoc(p, x, sid);
      if x.stageId == sid {
        PairsOfStageTwice(p, sid);
        RenumberSnoc(PairsOfStage(p, sid), x);
        assert Count(PairsOfStage(p, sid), sid) == Count(p, sid);
      } else {
        assert PairsOfStage(pairs, sid) == PairsOfStage(p, sid);
      }
    }
  }

  // ---- recovering pairs through `Stage.countries` ----

  /** For each stage in order, a pair for each country its relationship lists. */
  function RecoveredFrom(st: Store, stages: seq<Stage>): seq<AssocRow>
    decreases |stages|
  {
    if |stages| == 0 then []
    else
      var s := stages[|stages| - 1];
      RecoveredFrom(st, stages[..|stages| - 1]) + LinksOf(s.id, CountriesOfStage(st, s.id))
  }

  function LinksOf(sid: Id, countries: seq<Country>): seq<AssocRow>
  {
    Column(countries, (c: Country) => AssocRow(sid, c.id))
  }

  /** The pairs the fallback path rebuilds from `Stage.query.all()` and `stage.countries`. */
  function RecoveredPairs(st: Store): (r: seq<AssocRow>)
    ensures forall x :: x in r ==> x in st.association
  {
    var r := RecoveredFrom(st, st.stages);
    assert forall x :: x in r ==> x in st.association by {
      forall x | x in r ensures x in st.association {
        RecoveredFromSpec(st, st.stages, x);
      }
    }
    r
  }

  /** A pair is recovered exactly when it is an association row whose stage and country both
      have rows. */
  lemma {:induction false} RecoveredFromSpec(st: Store, stages: seq<Stage>, x: AssocRow)
    ensures x in RecoveredFrom(st, stages) <==>
              && x in st.association
              && x.stageId in StageIds(stages)
              && x.countryId in CountryIds(st.countries)
    decreases |stages|
  {
    if |stages| > 0 {
      var init, s := stages[..|stages| - 1], stages[|stages| - 1];
      RecoveredFromSpec(st, init, x);
      var cs := CountriesOfStage(st, s.id);
      assert StageIds(stages) == StageIds(init) + [s.id];
      if x in LinksOf(s.id, cs) {
        var i :| 0 <= i < |cs| && LinksOf(s.id, cs)[i] == x;
        assert cs[i] in cs;
        var j :| 0 <= j < |st.countries| && st.countries[j] == cs[i];
        assert CountryIds(st.countries)[j] == x.countryId;
      }
      if x in st.association && x.stageId == s.id && x.countryId in CountryIds(st.countries) {
        var j :| 0 <= j < |st.countries| && CountryIds(st.countries)[j] == x.countryId;
        var c := st.countries[j];
        assert c in cs;
        var i :| 0 <= i < |cs| && cs[i] == c;
        assert LinksOf(s.id, cs)[i] == x;
      }
    }
  }

  lemma RecoveredPairsSpec(st: Store, x: AssocRow)
    ensures x in RecoveredPairs(st) <==>
              && x in st.association
              && x.stageId in StageIds(st.stages)
              && x.countryId in CountryIds(st.countries)
  {
    RecoveredFromSpec(st, st.stages, x);
  }

  // ---- migrate_database ----

  /** The raw `SELECT stage_id, country_id FROM association`: its rows in the order returned, or
      the error it raised. */
  datatype OldTableRead = OldRows(pairs: seq<AssocRow>) | OldTableUnreadable

  /** How a run ended. */
  datatype MigrationOutcome =
    | Migrated(created: nat, verified: bool)
    | AlreadyMigrated(count: nat)
    | NothingRecovered
    | CheckFailed

  /** `migrate_database()`. `countReadable` and `relationReadable` say whether the fallback's
      `StageCountry.query.count()` and its reads of `Stage.countries` succeed. Every early exit
      returns before the delete, so the store is left as it was. */
  method Migrate(st: Store, read: OldTableRead, countReadable: bool, relationReadable: bool)
    returns (r: Store, outcome: MigrationOutcome)
    ensures r == st.(stageCountries := r.stageCountries)
    ensures !outcome.Migrated? ==> r == st
    ensures read.OldRows? ==> outcome == Migrated(|read.pairs|, true) && r.stageCountries == Renumber(read.pairs)
    ensures read.OldTableUnreadable? && !countReadable ==> outcome == CheckFailed
    ensures read.OldTableUnreadable? && countReadable && |st.stageCountries| > 0 ==>
              outcome == AlreadyMigrated(|st.stageCountries|)
    ensures read.OldTableUnreadable? && countReadable && |st.stageCountries| == 0 ==>
              && (!relationReadable ==> outcome == CheckFailed)
              && (relationReadable && RecoveredPairs(st) == [] ==> outcome == NothingRecovered)
              && (relationReadable && RecoveredPairs(st) != [] ==>
                    outcome == Migrated(|RecoveredPairs(st)|, true) && r.stageCountries == Renumber(RecoveredPairs(st)))
    ensures outcome.Migrated? ==> Contiguous(r.stageCountries) && |r.stageCountries| == outcome.created
  {
    var pairs: seq<AssocRow>;
    if read.OldRows? {
      pairs := read.pairs;
    } else {
      if !countReadable {
        return st, CheckFailed;
      }
      var count := |st.stageCountries|;
      if count > 0 {
        return st, AlreadyMigrated(count);
      }
      if !relationReadable {
        return st, CheckFailed;
      }
      pairs := RecoveredPairs(st);
      if pairs == [] {
        return st, NothingRecovered;
      }
    }
    // Delete every StageCountry row, then add one per pair.
    var rows := RenumberPairs(pairs);
    r := st.(stageCountries := rows);
    RenumberContiguous(pairs);
    var count := |r.stageCountries|;
    outcome := Migrated(|pairs|, count == |pairs|);
  }
}
