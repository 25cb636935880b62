# my-eurovision-table: store, seeding, migration, login and forms in Dafny

The model covers the state-changing core of a small Flask app for scoring Eurovision stages.

- **Store** (`Models`): an immutable store holding every table as a sequence in rowid order. The tables are users, stages, countries, the `association` link table, the ordered StageCountry rows and grades. `Valid` collects the constraints the schema declares:
  - unique primary keys;
  - unique usernames;
  - the composite key of `association`.
- **Ordering** (`Ordering`): per-stage views of StageCountry rows. `Contiguous` says that every stage's orders read 1, 2, ..., k.
- **Seeding** (`DbInit`), from `initialize_database()`:
  - insert-if-absent for stages and countries;
  - both branches of `assign_countries_to_stages()`.
  - The real-data branch gives each entry its 1-based list position. A missing country leaves a gap.
  - The dummy branch numbers each placement as "largest order in the stage, or 0, plus one".
  - `add_stages()` always reads the dummy stage list, even in real-data mode. So a real-data stage whose name is not among them gets no rows, and the model does the same.
- **Migration** (`Migration`), from `migrate_to_stage_country.py`:
  - the per-stage counter loop as a method, proved equal to a reference numbering;
  - the fallback that recovers pairs through `Stage.countries`;
  - every early exit, each of which leaves the store unchanged.
- **Routes** (`Routes`):
  - login by get-or-create;
  - logout;
  - the session-gated stage view.
- **Forms** (`Forms`): the `LoginForm` and `GradeForm` acceptance predicates under WTForms semantics.
  - `DataRequired` strips Python whitespace and rejects falsy data, including the integer 0.
  - `IntegerField` parses as Python's `int()` does for ASCII digits. It skips `int()`'s own whitespace, which leaves out the separators U+001C..U+001F that `str.strip()` removes.

Some inputs become parameters:
- The environment flag `USE_REAL_DATA` is `useReal`.
- The seed tables are data arguments.
- `random.randint`/`random.sample` are caller-supplied `Draw`s.
- The iteration order of the real-data country set is a caller-supplied enumeration.
- The migration's raw SQL read is an `OldTableRead` value, plus two booleans saying whether the fallback's reads succeed.

Lookups by `filter_by(...).first()` return the first match in table order. New rows get SQLite's rowid: one past the largest id, or 1 in an empty table. Pending inserts are visible to later lookups in the same call (autoflush).

StageCountry is constructed by the seeding and the migration but is not defined in app/models.py. It is modelled as its own table with no key. The stage view reads `association` and the seeding writes StageCountry; the model keeps the two separate, as the code does.

## Model

| member | source | states |
|---|---|---|
| Models.Valid | app/models.py:6-45 | The store constraints the schema declares: unique ids in users, stages, countries and grades, unique usernames, and no repeated `association` pair |
| Models.NextId | app/models.py:12 | A new primary key is positive, larger than every id in the table, and either 1 or one past an existing id |
| Models.FindUserIsTheUser | app/models.py:13 | With unique usernames, the user found by name is the only user with that name |
| Models.CountriesOfStage | app/models.py:22 | `Stage.countries`: a country is listed iff it exists and its pair with the stage is an association row |
| Models.StagesOfCountry | app/models.py:33 | `Country.stages`: a stage is listed iff it exists and its pair with the country is an association row |
| Models.RelationshipViewsAgree | app/models.py:22-33 | `Stage.countries` and `Country.stages` are views of one table: c is in s.countries iff s is in c.stages iff the pair is an association row |
| Models.DisplayNamesMayRepeat | app/models.py:19-32 | Stage and country display names are not keys: a valid store may hold two stages and two countries of the same name |
| Models.InsertGrade | app/models.py:39-45 | A grade insert adds one row with a fresh id and the given columns, defaults `timestamp` to the insertion time, changes nothing else, and keeps the store valid |
| Models.GradesAreUnconstrained | app/models.py:39-45 | Two grades for the same (user, stage, country) with values 99 and -4 can both be stored in a valid store |
| Ordering.MaxOrderOrZero | app/db_init.py:156 | The next-order query: 0 when the stage has no rows, otherwise one of the stage's orders and no smaller than any of them |
| Ordering.NextOrderAfterRun | app/db_init.py:156 | When a stage is numbered 1..k, "max order or 0" is k |
| Ordering.AppendNextKeepsContiguous | app/db_init.py:156-162 | Appending a row numbered "max order in its stage, or 0, plus one" keeps every stage numbered 1..k |
| DbInit.AddStage | app/db_init.py:88-91 | A stage is inserted only when none has that name; otherwise the store is unchanged; afterwards the name is found; validity is kept |
| DbInit.AddStages | app/db_init.py:84-92 | Only the stage table changes, and the existing stages stay in place unmodified |
| DbInit.AddStagesCovers | app/db_init.py:87-92 | After `add_stages()` every listed name has a stage |
| DbInit.AddStagesOnlyNew | app/db_init.py:88-90 | Every added stage is a listed name that had no namesake before it |
| DbInit.AddStagesValid | app/db_init.py:84-92 | `add_stages()` keeps the store valid |
| DbInit.AddStagesNoop | app/db_init.py:88-90 | When every name already has a stage, `add_stages()` changes nothing |
| DbInit.AddStagesIdempotent | app/db_init.py:84-92 | A second run of `add_stages()` adds nothing |
| DbInit.AddCountry | app/db_init.py:106-108 | A country is inserted only when none has that name, carrying the entry's artist and song; an existing country is left as it is |
| DbInit.AddCountries | app/db_init.py:95-119 | `add_countries()` walks the seed triples (real data) or the dummy names (dummy data); only the country table changes, and existing countries stay in place unmodified |
| DbInit.AddCountriesFrom | app/db_init.py:105-116 | The insert-if-absent loop of both branches: only the country table changes, and existing countries stay in place unmodified |
| DbInit.AddCountriesFromOnlyNew | app/db_init.py:105-108 | Every added country carries one of the walked entries and had no namesake before it |
| DbInit.AddCountriesRealSpec | app/db_init.py:97-108 | Real branch: every country named in the seed data has a row afterwards, and each new row is one seed triple |
| DbInit.AddCountriesDummySpec | app/db_init.py:113-116 | Dummy branch: every listed name has a row afterwards, and each new row has artist 'Artist '+name and song 'Song '+name |
| DbInit.AddCountriesValid | app/db_init.py:95-119 | `add_countries()` keeps the store valid |
| DbInit.AddCountriesIdempotent | app/db_init.py:95-119 | A second run of `add_countries()` adds nothing, whatever order it walks the seed set in |
| DbInit.BlockRowsShape | app/db_init.py:135-144 | Every row of a running order belongs to its stage, has order equal to the 1-based position of its entry, and links the country that entry names |
| DbInit.BlockRowsIncreasing | app/db_init.py:135-144 | Within one running order the orders strictly increase |
| DbInit.BlockRowsGaps | app/db_init.py:135-137 | Position i holds a row iff entry i's country exists: a missing country leaves a gap and later entries keep their positions |
| DbInit.ItemRowsLink | app/db_init.py:129-144 | The rows for one data item link a stage that exists to countries that exist |
| DbInit.RealRows | app/db_init.py:127-146 | The real-data rows, item by item in dict order: every row links an existing stage to an existing country, since an unknown stage or country name is skipped |
| DbInit.AssignReal | app/db_init.py:127-146 | The real-data branch replaces only StageCountry, and every row it leaves links an existing stage to an existing country |
| DbInit.RealRowsSkipUnnamed | app/db_init.py:129-132 | A stage that no data item names gets no rows |
| DbInit.RealStageRoster | app/db_init.py:129-144 | A stage's rows are exactly the running order of the data item naming it, with strictly increasing orders |
| DbInit.PlaceCountry | app/db_init.py:154-164 | Placing a country appends one row per drawn stage and leaves earlier rows in place |
| DbInit.PlaceCountryLink | app/db_init.py:153-164 | Every row a placement appends is for the placed country and one of the listed stages |
| DbInit.PlaceCountryStages | app/db_init.py:154-164 | Placing a country adds exactly its drawn stages to its placements and none to any other country |
| DbInit.DummyRows | app/db_init.py:148-164 | The dummy-branch rows: countries walked in table order, each placed in its drawn stages; the rows already there stay as a prefix |
| DbInit.DummyRowsLink | app/db_init.py:149-164 | Every row the dummy branch appends links one of the listed stages to one of the listed countries |
| DbInit.DummyRowsContiguous | app/db_init.py:151-164 | Dummy branch numbering keeps every stage numbered 1..k |
| DbInit.DummyRowsOthers | app/db_init.py:151-164 | A country not in the list gains no placement |
| DbInit.DummyRowsStages | app/db_init.py:151-164 | With distinct country ids, each country is placed in exactly its drawn stages, in draw order |
| DbInit.AssignDummy | app/db_init.py:148-168 | Only StageCountry changes; a draw that `random.sample` rejects leaves no StageCountry rows |
| DbInit.DummyAssignment | app/db_init.py:149-164 | The dummy run completes iff no draw exceeds the stage count; then every stage is numbered 1..k and each country is in 1 or 2 distinct stages, exactly those drawn |
| DbInit.RealRowsReadsCatalog | app/db_init.py:129-136 | The real-data rows depend only on the stage and country tables |
| DbInit.AssignCountriesToStages | app/db_init.py:121-168 | Only StageCountry changes, the real branch always completes, and validity is kept |
| DbInit.AssignIgnoresPriorRows | app/db_init.py:124-125 | The result does not depend on the StageCountry rows present before the call |
| DbInit.InitializeDatabase | app/db_init.py:170-185 | Users, association and grades are untouched, and existing stages and countries stay in place |
| DbInit.InitializeDatabaseSpec | app/db_init.py:170-185 | Initialisation keeps the store valid, leaves every dummy stage name and every seed country with a row, and in a completed dummy run numbers every stage 1..k |
| Migration.RenumberPairs | migrate_to_stage_country.py:67-82 | The dictionary-of-counters loop computes the reference numbering: pair i gets one more than the number of earlier pairs of its stage |
| Migration.RenumberKeepsPairs | migrate_to_stage_country.py:69-85 | Exactly one row per input pair, carrying that pair's stage and country |
| Migration.RowsOfStageCount | migrate_to_stage_country.py:69-82 | Each stage gets as many rows as it has pairs |
| Migration.RenumberContiguous | migrate_to_stage_country.py:67-80 | Every stage is numbered exactly 1..n, n being its number of pairs |
| Migration.RenumberPerStage | migrate_to_stage_country.py:70-74 | A stage's rows are what renumbering its pairs alone gives: interleaved pairs of other stages do not matter |
| Migration.RecoveredPairs | migrate_to_stage_country.py:42-46 | The fallback's pairs, stage by stage over `Stage.query.all()`: it never yields a pair that is not an association row |
| Migration.RecoveredPairsSpec | migrate_to_stage_country.py:43-46 | A pair is recovered iff it is an association row whose stage and country both exist |
| Migration.Migrate | migrate_to_stage_country.py:7-93 | From the old table: the pairs read, renumbered. Unreadable: a failed count gives CheckFailed, existing rows give AlreadyMigrated, and a failed relationship read gives CheckFailed; otherwise the recovered pairs are renumbered, or NothingRecovered when there are none. Every early exit leaves the store unchanged, and a completed run passes the row-count check with every stage numbered 1..n |
| Forms.LoginValidates | app/forms.py:5-6 | `LoginForm().validate_on_submit()`: a submission, a valid CSRF token, and a username that `DataRequired` accepts |
| Forms.LoginAcceptance | app/forms.py:5-6 | A login validates iff it is a submission with a valid CSRF token and a username holding a non-whitespace character |
| Forms.ParseInt | app/forms.py:10 | `int()` on the raw text: whitespace alone raises, and any character that is neither `int()` whitespace nor a digit, sign or underscore makes it raise |
| Forms.GradeValidates | app/forms.py:9-10 | `GradeForm().validate_on_submit()`: a submission, a valid CSRF token, and a grade field that parses, is non-zero for `DataRequired`, and lies in 0..12 |
| Forms.ParseShowRoundTrip | app/forms.py:10 | `int(str(n)) == n` for every integer n |
| Forms.GradeAcceptsOneToTwelve | app/forms.py:10 | For a grade written as Python writes integers, the form accepts exactly 1..12: 0 is lost to `DataRequired` despite `min=0` |
| Forms.GradeAcceptsPythonSpellings | app/forms.py:10 | " 7 ", "1_2", "+3" and "012" parse as `int()` parses them and are accepted |
| Forms.GradeRejectsNonIntegers | app/forms.py:10 | A missing field, "", "x" and "1__2" are rejected |
| Forms.IntSkipsLessThanStrip | app/forms.py:6-10 | "\x1c7" passes `DataRequired` on a text field but is not a grade, because `int()` does not skip U+001C; a leading no-break space is skipped by both |
| Routes.Logout | app/routes.py:6-10 | Logout removes `user_id`, keeps `username`, and redirects |
| Routes.LogoutIdempotent | app/routes.py:8 | Logging out twice is logging out once, and logging out while logged out changes nothing |
| Routes.Index | app/routes.py:13-26 | Only users change, adding at most one user; an invalid form changes neither store nor session; a valid login records the name and the id of the first user with that name; validity is kept; all stages are shown |
| Routes.IndexCreatesUnseen | app/routes.py:18-24 | An unseen name adds exactly one user with that name and a fresh id, and the session logs in as that user |
| Routes.IndexReusesSeen | app/routes.py:18-24 | A known name adds no user and the session takes that user's id |
| Routes.LoginTwiceCreatesOnce | app/routes.py:16-24 | Logging in again with the same name creates no second user and yields the same session |
| Routes.StageView | app/routes.py:28-34 | Redirect iff no `user_id` in session; 404 iff logged in and no stage has the id; otherwise that stage and exactly the countries linked to it through `association` |
| Routes.StageViewGateReadsNothing | app/routes.py:30-31 | Without `user_id` the answer is the same whatever the store holds |
| Routes.StageViewShowsLinkedCountries | app/routes.py:32-33 | In a valid store the page shows the stage with the requested id, and lists a country iff the stage is among its `Country.stages` |

## Left out

- Grade recording, ranking, rosters and reordering: no shown route writes or reads grades, and `GradeForm` is not used by any route. Only the schema facts about grades and the form predicate are modelled.
- Forms.ParseInt: accepts ASCII digits only. Python's `int()` also accepts other Unicode decimal digits, which the model rejects. CPython's limit of 4300 digits for `int()` on a string is not modelled either: leading zeros count toward it, so `"0"*4300 + "7"` raises in Python but parses as 7 here.
- Column length limits (`String(64)`, `String(128)`): SQLite does not enforce them.
- Foreign keys: SQLite does not enforce them by default, so `Valid` does not require grades or association rows to point at existing rows.
- Models.InsertGrade: an explicit `timestamp=None` is modelled like an omitted timestamp. SQLAlchemy leaves a None attribute with a default out of the INSERT, so both get the insertion time. Storing NULL needs `null()`, which is not modelled.
- Integer width: ids, orders and grade values are unbounded here. SQLite stores 64-bit signed integers, and Python's `sqlite3` raises OverflowError when binding anything wider, so `Grade(value=2**63)` fails at flush while `InsertGrade` stores it. Once the largest rowid is 2^63-1, SQLite also stops using the max-plus-one rule that `NextId` states.
- Other databases: `DATABASE_URL` can name a database other than the default SQLite file. The model follows SQLite's rowid, NULL and foreign-key behaviour.
- Printing, flash messages and template rendering: responses are reduced to a redirect, a 404 or the data handed to the template.
- Commits, transactions and rollbacks: each operation is one step. The one rollback that matters, `random.sample` raising after the committed delete, is modelled as an empty StageCountry table with outcome `SampleTooLarge`.
- Migration.Migrate: exceptions are reduced to the `OldTableUnreadable` read and the booleans `countReadable` and `relationReadable`. The final count is read from the model's own table, so the "verification warning" branch cannot occur.
- Migration.RecoveredPairs: `stage.countries` is read in country-table order. SQL gives no order without `ORDER BY`, so another order would number a stage's countries differently.
- Unordered `.all()` reads are taken in rowid order. This covers `Country.query.all()` in the dummy branch of `assign_countries_to_stages()`, whose walk order decides the order numbers each stage hands out, and `Stage.query.all()` in the migration's fallback. SQL fixes no order without `ORDER BY`.
- Routes.StageView: the join query is taken to return each linked country once, in country-table order. SQL does not fix the order.
- App bootstrap (app/__init__.py, fill_db.py), configuration and the `create_all` call: they configure Flask and SQLAlchemy, with no logic of their own.
- The literal seed tables: they are data and are passed as parameters.
- The counts printed at the end of `initialize_database()`: they are output only.
