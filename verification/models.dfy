/** The entity store of app/models.py: one immutable value holding every table, rows in table (rowid)
    order. Column types carry the NOT NULL constraints: a string or integer field is always present. */
module Models {
  import opened Wrappers
  import opened Seqs

  /** An INTEGER PRIMARY KEY (a rowid alias in SQLite). */
  type Id = nat
  /** A `datetime` instant, as a count of ticks since some epoch. */
  type Time = nat

  datatype User = User(id: Id, username: string)
  datatype Stage = Stage(id: Id, displayName: string)
  datatype Country = Country(id: Id, displayName: string, artist: string, song: string)
  /** A row of the `association` table (stage_id, country_id); both columns form the primary key. */
  datatype AssocRow = AssocRow(stageId: Id, countryId: Id)
  /** A performance-order row. The shown schema declares no key over it. */
  datatype StageCountry = StageCountry(stageId: Id, countryId: Id, order: int)
  /** A grade row. The schema bounds neither `value` nor the number of rows per (user, stage, country). */
  datatype Grade = Grade(id: Id, value: int, userId: Id, stageId: Id, countryId: Id, timestamp: Time)

  datatype Store = Store(
    users: seq<User>,
    stages: seq<Stage>,
    countries: seq<Country>,
    association: seq<AssocRow>,
    stageCountries: seq<StageCountry>,
    grades: seq<Grade>)

  function UserIds(users: seq<User>): seq<Id>
  {
    Column(users, (x: User) => x.id)
  }

  function StageIds(stages: seq<Stage>): seq<Id>
  {
    Column(stages, (x: Stage) => x.id)
  }

  function CountryIds(countries: seq<Country>): seq<Id>
  {
    Column(countries, (x: Country) => x.id)
  }

  function GradeIds(grades: seq<Grade>): seq<Id>
  {
    Column(grades, (x: Grade) => x.id)
  }

  /** SQLite's rowid allocation for a table without AUTOINCREMENT: one more than the largest id
      present, or 1 for an empty table. */
  function NextId(ids: seq<Id>): (r: Id)
    ensures 1 <= r
    ensures forall i :: 0 <= i < |ids| ==> ids[i] < r
    ensures r == 1 || (exists i :: 0 <= i < |ids| && ids[i] == r - 1)
    decreases |ids|
  {
    if |ids| == 0 then 1
    else
      var m := NextId(ids[..|ids| - 1]);
      var last := ids[|ids| - 1];
      if last < m then m else last + 1
  }

  predicate UniqueUsernames(users: seq<User>)
  {
    forall i, j :: 0 <= i < j < |users| ==> users[i].username != users[j].username
  }

  /** The constraints the schema declares: primary keys are unique in every table, `username` is
      UNIQUE, and (stage_id, country_id) is the composite key of `association`. Display names,
      StageCountry rows and grade triples are deliberately unconstrained. */
  predicate Valid(st: Store)
  {
    && Distinct(UserIds(st.users))
    && UniqueUsernames(st.users)
    && Distinct(StageIds(st.stages))
    && Distinct(CountryIds(st.countries))
    && Distinct(GradeIds(st.grades))
    && Distinct(st.association)
  }

  // ---- lookups: `Model.query.filter_by(...).first()` and `query.get(id)` ----

  function FindUser(users: seq<User>, name: string): Option<nat>
  {
    FirstIndex(users, (u: User) => u.username == name)
  }

  function FindStageByName(stages: seq<Stage>, name: string): Option<nat>
  {
    FirstIndex(stages, (s: Stage) => s.displayName == name)
  }

  function FindStageById(stages: seq<Stage>, id: Id): Option<nat>
  {
    FirstIndex(stages, (s: Stage) => s.id == id)
  }

  function FindCountryByName(countries: seq<Country>, name: string): Option<nat>
  {
    FirstIndex(countries, (c: Country) => c.displayName == name)
  }

  /** Under unique usernames, the row `FindUser` returns is the only one with that name. */
  lemma FindUserIsTheUser(users: seq<User>, name: string, k: nat)
    requires UniqueUsernames(users)
    requires k < |users| && users[k].username == name
    ensures FindUser(users, name) == Some(k)
  {
  }

  // ---- the two sides of the many-to-many relationship over `association` ----

  /** `Stage.countries`: the countries a stage is linked to. */
  function CountriesOfStage(st: Store, stageId: Id): (r: seq<Country>)
    ensures forall c :: c in r <==> c in st.countries && AssocRow(stageId, c.id) in st.association
  {
    var p := (c: Country) => AssocRow(stageId, c.id) in st.association;
    assert forall c :: c in Filter(st.countries, p) <==> c in st.countries && p(c) by {
      forall c { FilterMembers(st.countries, p, c); }
    }
    Filter(st.countries, p)
  }

  /** `Country.stages`: the stages a country is linked to. */
  function StagesOfCountry(st: Store, countryId: Id): (r: seq<Stage>)
    ensures forall s :: s in r <==> s in st.stages && AssocRow(s.id, countryId) in st.association
  {
    var p := (s: Stage) => AssocRow(s.id, countryId) in st.association;
    assert forall s :: s in Filter(st.stages, p) <==> s in st.stages && p(s) by {
      forall s { FilterMembers(st.stages, p, s); }
    }
    Filter(st.stages, p)
  }

  /** `back_populates` makes the two relationships views of one table. */
  lemma RelationshipViewsAgree(st: Store, s: Stage, c: Country)
    requires s in st.stages && c in st.countries
    ensures c in CountriesOfStage(st, s.id) <==> s in StagesOfCountry(st, c.id)
    ensures c in CountriesOfStage(st, s.id) <==> AssocRow(s.id, c.id) in st.association
  {
  }

  // ---- schema-level facts ----

  /** Inserting a Grade row: a fresh id, the given columns, and `timestamp` defaulting to the
      insertion time when the caller leaves it out or passes None (SQLAlchemy omits a None
      attribute that has a default). The schema declares no range or uniqueness rule; SQLite's
      64-bit integer range is not modelled. */
  function InsertGrade(st: Store, value: int, userId: Id, stageId: Id, countryId: Id,
                       supplied: Option<Time>, now: Time): (r: Store)
    ensures r == st.(grades := r.grades)
    ensures |r.grades| == |st.grades| + 1 && r.grades[..|st.grades|] == st.grades
    ensures r.grades[|st.grades|].value == value
    ensures r.grades[|st.grades|].userId == userId
    ensures r.grades[|st.grades|].stageId == stageId
    ensures r.grades[|st.grades|].countryId == countryId
    ensures supplied.None? ==> r.grades[|st.grades|].timestamp == now
    ensures supplied.Some? ==> r.grades[|st.grades|].timestamp == supplied.value
    ensures forall i :: 0 <= i < |st.grades| ==> st.grades[i].id != r.grades[|st.grades|].id
    ensures Valid(st) ==> Valid(r)
  {
    var g := Grade(NextId(GradeIds(st.grades)), value, userId, stageId, countryId, supplied.GetOr(now));
    var r := st.(grades := st.grades + [g]);
    assert GradeIds(r.grades) == GradeIds(st.grades) + [g.id];
    assert forall i :: 0 <= i < |st.grades| ==> GradeIds(st.grades)[i] == st.grades[i].id;
    r
  }

  /** Two grades for the same (user, stage, country), with values outside 0..12, can both be
      stored and the store stays valid: the schema has neither a range nor a uniqueness rule, and
      both values lie well inside SQLite's 64-bit integers. */
  lemma {:induction false} GradesAreUnconstrained(st: Store, userId: Id, stageId: Id, countryId: Id, now: Time)
    requires Valid(st)
    ensures var r := InsertGrade(InsertGrade(st, 99, userId, stageId, countryId, None, now),
                                 -4, userId, stageId, countryId, None, now);
            && Valid(r)
            && |r.grades| == |st.grades| + 2
            && r.grades[|st.grades|].value == 99 && r.grades[|st.grades| + 1].value == -4
            && r.grades[|st.grades|].id != r.grades[|st.grades| + 1].id
            && r.grades[|st.grades|].userId == r.grades[|st.grades| + 1].userId == userId
            && r.grades[|st.grades|].stageId == r.grades[|st.grades| + 1].stageId == stageId
            && r.grades[|st.grades|].countryId == r.grades[|st.grades| + 1].countryId == countryId
  {
    var s1 := InsertGrade(st, 99, userId, stageId, countryId, None, now);
    var r := InsertGrade(s1, -4, userId, stageId, countryId, None, now);
    assert r.grades[..|s1.grades|] == s1.grades;
    assert r.grades[|st.grades|] == s1.grades[|st.grades|];
  }

  /** Stage and country display names are not keys: a valid store may hold two of each with the
      same name. */
  lemma DisplayNamesMayRepeat()
    ensures Valid(Store([], [Stage(1, "Final"), Stage(2, "Final")],
                        [Country(1, "Sweden", "A", "B"), Country(2, "Sweden", "C", "D")], [], [], []))
  {
    var st := Store([], [Stage(1, "Final"), Stage(2, "Final")],
                    [Country(1, "Sweden", "A", "B"), Country(2, "Sweden", "C", "D")], [], [], []);
    assert StageIds(st.stages) == [1, 2];
    assert CountryIds(st.countries) == [1, 2];
  }
}
