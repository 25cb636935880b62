/** Seeding of app/db_init.py. The environment flag `USE_REAL_DATA` is the parameter `useReal`;
    the seed tables are parameters; the random draws of the dummy branch are caller-supplied
    `Draw`s; the iteration order of the real branch's country set is a caller-supplied
    enumeration. Pending inserts are visible to later lookups in the same call (autoflush). */
module DbInit {
  import opened Wrappers
  import opened Seqs
  import opened Models
  import opened Ordering

  /** One roster line of the seed data: `{'country': ..., 'artist': ..., 'song': ...}`. */
  datatype Entry = Entry(country: string, artist: string, song: string)

  /** One item of the real-data dict: a stage name and its running order. */
  datatype StageData = StageData(stageName: string, entries: seq<Entry>)

  /** `DUMMY_DATA`: stage names and country names. */
  datatype DummyData = DummyData(stages: seq<string>, countries: seq<string>)

  /** Keys of a dict are distinct. */
  predicate DistinctStageNames(data: seq<StageData>)
  {
    forall i, j :: 0 <= i < j < |data| ==> data[i].stageName != data[j].stageName
  }

  // ---- add_stages ----

  /** Insert a stage named `name` unless one already exists. */
  function AddStage(st: Store, name: string): (r: Store)
    ensures r == st.(stages := r.stages)
    ensures FindStageByName(st.stages, name).Some? ==> r == st
    ensures FindStageByName(st.stages, name).None? ==>
              |r.stages| == |st.stages| + 1 && r.stages[..|st.stages|] == st.stages
              && r.stages[|st.stages|].displayName == name
    ensures FindStageByName(r.stages, name).Some?
    ensures Valid(st) ==> Valid(r)
  {
    if FindStageByName(st.stages, name).Some? then st
    else
      var s := Stage(NextId(StageIds(st.stages)), name);
      var r := st.(stages := st.stages + [s]);
      assert r.stages[|st.stages|] == s;
      assert StageIds(r.stages) == StageIds(st.stages) + [s.id];
      assert forall i :: 0 <= i < |st.stages| ==> StageIds(st.stages)[i] == st.stages[i].id;
      r
  }

  /** `add_stages()`: for each name in turn, insert it unless a stage of that name exists.
      Existing stages are neither changed nor removed. */
  function AddStages(st: Store, names: seq<string>): (r: Store)
    ensures r == st.(stages := r.stages)
    ensures |st.stages| <= |r.stages| && r.stages[..|st.stages|] == st.stages
    decreases |names|
  {
    if |names| == 0 then st
    else
      var s1 := AddStage(st, names[0]);
      var r := AddStages(s1, names[1..]);
      assert r.stages[..|st.stages|] == s1.stages[..|st.stages|];
      r
  }

  /** Afterwards every listed name has a stage. */
  lemma {:induction false} AddStagesCovers(st: Store, names: seq<string>)
    ensures forall n :: n in names ==> FindStageByName(AddStages(st, names).stages, n).Some?
    decreases |names|
  {
    if |names| > 0 {
      var s1 := AddStage(st, names[0]);
      var r := AddStages(s1, names[1..]);
      AddStagesCovers(s1, names[1..]);
      FirstIndexInPrefix(r.stages, |s1.stages|, (s: Stage) => s.displayName == names[0]);
      assert forall n :: n in names ==> n == names[0] || n in names[1..];
    }
  }

  /** The stages past `before` in `after` are named in `names`, and none has a namesake earlier
      in the table. */
  ghost predicate OnlyNewStages(before: seq<Stage>, after: seq<Stage>, names: seq<string>)
  {
    forall k :: |before| <= k < |after| ==>
      after[k].displayName in names && FindStageByName(after[..k], after[k].displayName).None?
  }

  /** Every stage added is named in the list and had no namesake before it: nothing is
      inserted twice and nothing already present is inserted again. */
  lemma {:induction false} AddStagesOnlyNew(st: Store, names: seq<string>)
    ensures OnlyNewStages(st.stages, AddStages(st, names).stages, names)
    decreases |names|
  {
    if |names| > 0 {
      var s1 := AddStage(st, names[0]);
      var r := AddStages(s1, names[1..]);
      assert r == AddStages(st, names);
      AddStagesOnlyNew(s1, names[1..]);
      forall k | |st.stages| <= k < |r.stages|
        ensures r.stages[k].displayName in names
        ensures FindStageByName(r.stages[..k], r.stages[k].displayName).None?
      {
        if k < |s1.stages| {
          assert FindStageByName(st.stages, names[0]).None?;
          assert k == |st.stages|;
          assert r.stages[..k] == st.stages;
          assert r.stages[k] == r.stages[..|s1.stages|][k] == s1.stages[k];
        } else {
          assert r.stages[k].displayName in names[1..];
        }
      }
    }
  }

  /** `add_stages()` keeps the store valid. */
  lemma {:induction false} AddStagesValid(st: Store, names: seq<string>)
    requires Valid(st)
    ensures Valid(AddStages(st, names))
    decreases |names|
  {
    if |names| > 0 {
      AddStagesValid(AddStage(st, names[0]), names[1..]);
    }
  }

  /** With every name already present, `add_stages()` changes nothing. */
  lemma {:induction false} AddStagesNoop(st: Store, names: seq<string>)
    requires forall n :: n in names ==> FindStageByName(st.stages, n).Some?
    ensures AddStages(st, names) == st
    decreases |names|
  {
    if |names| > 0 {
      assert names[0] in names;
      assert forall n :: n in names[1..] ==> n in names;
      AddStagesNoop(st, names[1..]);
    }
  }

  /** A second run of `add_stages()` adds nothing. */
  lemma {:induction false} AddStagesIdempotent(st: Store, names: seq<string>)
    ensures AddStages(AddStages(st, names), names) == AddStages(st, names)
  {
    AddStagesCovers(st, names);
    AddStagesNoop(AddStages(st, names), names);
  }

  // ---- add_countries ----

  /** Insert a country for `e` unless one with that display name exists; an existing country's
      artist and song are left as they are. */
  function AddCountry(st: Store, e: Entry): (r: Store)
    ensures r == st.(countries := r.countries)
    ensures FindCountryByName(st.countries, e.country).Some? ==> r == st
    ensures FindCountryByName(st.countries, e.country).None? ==>
              |r.countries| == |st.countries| + 1 && r.countries[..|st.countries|] == st.countries
              && r.countries[|st.countries|].displayName == e.country
              && r.countries[|st.countries|].artist == e.artist
              && r.countries[|st.countries|].song == e.song
    ensures FindCountryByName(r.countries, e.country).Some?
    ensures Valid(st) ==> Valid(r)
  {
    if FindCountryByName(st.countries, e.country).Some? then st
    else
      var c := Country(NextId(CountryIds(st.countries)), e.country, e.artist, e.song);
      var r := st.(countries := st.countries + [c]);
      assert r.countries[|st.countries|] == c;
      assert CountryIds(r.countries) == CountryIds(st.countries) + [c.id];
      assert forall i :: 0 <= i < |st.countries| ==> CountryIds(st.countries)[i] == st.countries[i].id;
      r
  }

  function EntryOf(c: Country): Entry
  {
    Entry(c.displayName, c.artist, c.song)
  }

  /** The insert-if-absent loop shared by both branches of `add_countries()`. Existing
      countries are neither changed nor removed. */
  function AddCountriesFrom(st: Store, entries: seq<Entry>): (r: Store)
    ensures r == st.(countries := r.countries)
    ensures |st.countries| <= |r.countries| && r.countries[..|st.countries|] == st.countries
    decreases |entries|
  {
    if |entries| == 0 then st
    else
      var s1 := AddCountry(st, entries[0]);
      var r := AddCountriesFrom(s1, entries[1..]);
      assert r.countries[..|st.countries|] == s1.countries[..|st.countries|];
      r
  }

  lemma {:induction false} AddCountriesFromCovers(st: Store, entries: seq<Entry>)
    ensures forall e :: e in entries ==> FindCountryByName(AddCountriesFrom(st, entries).countries, e.country).Some?
    decreases |entries|
  {
    if |entries| > 0 {
      var s1 := AddCountry(st, entries[0]);
      var r := AddCountriesFrom(s1, entries[1..]);
      AddCountriesFromCovers(s1, entries[1..]);
      FirstIndexInPrefix(r.countries, |s1.countries|, (c: Country) => c.displayName == entries[0].country);
      assert forall e :: e in entries ==> e == entries[0] || e in entries[1..];
    }
  }

  /** The countries past `before` in `after` each carry one of `entries`, and none has a
      namesake earlier in the table. */
  ghost predicate OnlyNewCountries(before: seq<Country>, after: seq<Country>, entries: seq<Entry>)
  {
    forall k :: |before| <= k < |after| ==>
      EntryOf(after[k]) in entries && FindCountryByName(after[..k], after[k].displayName).None?
  }

  lemma {:induction false} AddCountriesFromOnlyNew(st: Store, entries: seq<Entry>)
    ensures OnlyNewCountries(st.countries, AddCountriesFrom(st, entries).countries, entries)
    decreases |entries|
  {
    if |entries| > 0 {
      var s1 := AddCountry(st, entries[0]);
      var r := AddCountriesFrom(s1, entries[1..]);
      assert r == AddCountriesFrom(st, entries);
      AddCountriesFromOnlyNew(s1, entries[1..]);
      forall k | |st.countries| <= k < |r.countries|
        ensures EntryOf(r.countries[k]) in entries
        ensures FindCountryByName(r.countries[..k], r.countries[k].displayName).None?
      {
        if k < |s1.countries| {
          assert FindCountryByName(st.countries, entries[0].country).None?;
          assert k == |st.countries|;
          assert r.countries[..k] == st.countries;
          assert r.countries[k] == r.countries[..|s1.countries|][k] == s1.countries[k];
          assert EntryOf(r.countries[k]) == entries[0];
        } else {
          assert EntryOf(r.countries[k]) in entries[1..];
        }
      }
    }
  }

  lemma {:induction false} AddCountriesFromValid(st: Store, entries: seq<Entry>)
    requires Valid(st)
    ensures Valid(AddCountriesFrom(st, entries))
    decreases |entries|
  {
    if |entries| > 0 {
      AddCountriesFromValid(AddCountry(st, entries[0]), entries[1..]);
    }
  }

  lemma {:induction false} AddCountriesFromNoop(st: Store, entries: seq<Entry>)
    requires forall e :: e in entries ==> FindCountryByName(st.countries, e.country).Some?
    ensures AddCountriesFrom(st, entries) == st
    decreases |entries|
  {
    if |entries| > 0 {
      assert entries[0] in entries;
      assert forall e :: e in entries[1..] ==> e in entries;
      AddCountriesFromNoop(st, entries[1..]);
    }
  }

  /** The dummy branch's entries: `'Artist ' + name` and `'Song ' + name`. */
  function DummyEntries(names: seq<string>): seq<Entry>
  {
    seq(|names|, i requires 0 <= i < |names| => Entry(names[i], "Artist " + names[i], "Song " + names[i]))
  }

  /** The dummy entries are exactly the listed names, each with its made-up artist and song. */
  lemma DummyEntriesShape(names: seq<string>)
    ensures forall e :: e in DummyEntries(names) ==>
              e.country in names && e.artist == "Artist " + e.country && e.song == "Song " + e.country
    ensures forall n :: n in names ==> Entry(n, "Artist " + n, "Song " + n) in DummyEntries(names)
  {
    var es := DummyEntries(names);
    forall e | e in es
      ensures e.country in names && e.artist == "Artist " + e.country && e.song == "Song " + e.country
    {
      var i :| 0 <= i < |es| && es[i] == e;
    }
    forall n | n in names ensures Entry(n, "Artist " + n, "Song " + n) in es {
      var i :| 0 <= i < |names| && names[i] == n;
      assert es[i] == Entry(n, "Artist " + n, "Song " + n);
    }
  }

  /** Every entry of the real-data dict, stage by stage. */
  function AllEntries(data: seq<StageData>): seq<Entry>
    decreases |data|
  {
    if |data| == 0 then [] else data[0].entries + AllEntries(data[1..])
  }

  /** `xs` visits each member of the set of `ys` exactly once: one iteration order of a Python set. */
  ghost predicate EnumeratesSetOf(xs: seq<Entry>, ys: seq<Entry>)
  {
    Distinct(xs) && forall e :: e in xs <==> e in ys
  }

  /** `add_countries()`. The real branch walks the set of all (country, artist, song) triples in
      the order `enumeration`; the dummy branch walks `dummyCountries` in list order. */
  function AddCountries(st: Store, useReal: bool, dummyCountries: seq<string>,
                        realData: seq<StageData>, enumeration: seq<Entry>): (r: Store)
    requires useReal ==> EnumeratesSetOf(enumeration, AllEntries(realData))
    ensures r == st.(countries := r.countries)
    ensures |st.countries| <= |r.countries| && r.countries[..|st.countries|] == st.countries
  {
    if useReal then AddCountriesFrom(st, enumeration)
    else AddCountriesFrom(st, DummyEntries(dummyCountries))
  }

  /** Real branch of `add_countries()`: every country named anywhere in the seed data has a
      country afterwards, and each inserted country carries one seed triple, unchanged. */
  lemma AddCountriesRealSpec(st: Store, dummyCountries: seq<string>,
                             realData: seq<StageData>, enumeration: seq<Entry>)
    requires EnumeratesSetOf(enumeration, AllEntries(realData))
    ensures var r := AddCountries(st, true, dummyCountries, realData, enumeration);
      && (forall e :: e in AllEntries(realData) ==> FindCountryByName(r.countries, e.country).Some?)
      && (forall k :: |st.countries| <= k < |r.countries| ==> EntryOf(r.countries[k]) in AllEntries(realData))
  {
    var r := AddCountries(st, true, dummyCountries, realData, enumeration);
    assert r == AddCountriesFrom(st, enumeration);
    AddCountriesFromCovers(st, enumeration);
    AddCountriesFromOnlyNew(st, enumeration);
    forall k | |st.countries| <= k < |r.countries|
      ensures EntryOf(r.countries[k]) in AllEntries(realData)
    {
      assert EntryOf(r.countries[k]) in enumeration;
    }
  }

  /** Dummy branch of `add_countries()`: every listed name has a country afterwards, and each
      inserted country is a listed name with artist `'Artist ' + name` and song `'Song ' + name`. */
  lemma AddCountriesDummySpec(st: Store, dummyCountries: seq<string>,
                              realData: seq<StageData>, enumeration: seq<Entry>)
    ensures var r := AddCountries(st, false, dummyCountries, realData, enumeration);
      && (forall n :: n in dummyCountries ==> FindCountryByName(r.countries, n).Some?)
      && (forall k :: |st.countries| <= k < |r.countries| ==>
            r.countries[k].displayName in dummyCountries
            && r.countries[k].artist == "Artist " + r.countries[k].displayName
            && r.countries[k].song == "Song " + r.countries[k].displayName)
  {
    var es := DummyEntries(dummyCountries);
    var r := AddCountries(st, false, dummyCountries, realData, enumeration);
    assert r == AddCountriesFrom(st, es);
    AddCountriesFromCovers(st, es);
    AddCountriesFromOnlyNew(st, es);
    DummyEntriesShape(dummyCountries);
    forall n | n in dummyCountries
      ensures FindCountryByName(r.countries, n).Some?
    {
      assert Entry(n, "Artist " + n, "Song " + n) in es;
    }
    forall k | |st.countries| <= k < |r.countries|
      ensures r.countries[k].displayName in dummyCountries
      ensures r.countries[k].artist == "Artist " + r.countries[k].displayName
      ensures r.countries[k].song == "Song " + r.countries[k].displayName
    {
      assert EntryOf(r.countries[k]) in es;
    }
  }

  /** `add_countries()` keeps the store valid. */
  lemma AddCountriesValid(st: Store, useReal: bool, dummyCountries: seq<string>,
                          realData: seq<StageData>, enumeration: seq<Entry>)
    requires useReal ==> EnumeratesSetOf(enumeration, AllEntries(realData))
    requires Valid(st)
    ensures Valid(AddCountries(st, useReal, dummyCountries, realData, enumeration))
  {
    if useReal {
      AddCountriesFromValid(st, enumeration);
    } else {
      AddCountriesFromValid(st, DummyEntries(dummyCountries));
    }
  }

  /** A second run of `add_countries()` adds nothing, even when it walks the seed set in another
      order, as a new process with its own string hashing does. */
  lemma AddCountriesIdempotent(st: Store, useReal: bool, dummyCountries: seq<string>,
                               realData: seq<StageData>, enumeration: seq<Entry>, enumeration2: seq<Entry>)
    requires useReal ==> EnumeratesSetOf(enumeration, AllEntries(realData))
    requires useReal ==> EnumeratesSetOf(enumeration2, AllEntries(realData))
    ensures var r := AddCountries(st, useReal, dummyCountries, realData, enumeration);
            AddCountries(r, useReal, dummyCountries, realData, enumeration2) == r
  {
    var r := AddCountries(st, useReal, dummyCountries, realData, enumeration);
    if useReal {
      AddCountriesFromCovers(st, enumeration);
      AddCountriesFromNoop(r, enumeration2);
    } else {
      var es := DummyEntries(dummyCountries);
      AddCountriesFromCovers(st, es);
      AddCountriesFromNoop(r, es);
    }
  }

  // ---- assign_countries_to_stages, real-data branch ----

  function StageIdByName(stages: seq<Stage>, name: string): (r: Option<Id>)
    ensures r.Some? ==> r.value in StageIds(stages)
  {
    match FindStageByName(stages, name)
    case None => None
    case Some(k) =>
      assert StageIds(stages)[k] == stages[k].id;
      Some(stages[k].id)
  }

  function CountryIdByName(countries: seq<Country>, name: string): (r: Option<Id>)
    ensures r.Some? ==> r.value in CountryIds(countries)
  {
    match FindCountryByName(countries, name)
    case None => None
    case Some(k) =>
      assert CountryIds(countries)[k] == countries[k].id;
      Some(countries[k].id)
  }

  /** A StageCountry row whose stage and country both exist, as foreign keys would demand. */
  predicate Links(x: StageCountry, stages: seq<Stage>, countries: seq<Country>)
  {
    x.stageId in StageIds(stages) && x.countryId in CountryIds(countries)
  }

  /** The row for the entry at 1-based position `pos`, when its country exists. */
  function EntryRow(countries: seq<Country>, sid: Id, e: Entry, pos: int): seq<StageCountry>
  {
    match CountryIdByName(countries, e.country)
    case None => []
    case Some(cid) => [StageCountry(sid, cid, pos)]
  }

  /** The rows for one stage's running order, the entry at index `i` getting order `start + i`. */
  function BlockRows(countries: seq<Country>, sid: Id, entries: seq<Entry>, start: int): seq<StageCountry>
    decreases |entries|
  {
    if |entries| == 0 then []
    else EntryRow(countries, sid, entries[0], start) + BlockRows(countries, sid, entries[1..], start + 1)
  }

  /** Every row belongs to stage `sid`, carries a position in the running order, and links the
      country the entry at that position names. */
  ghost predicate WellPlaced(rows: seq<StageCountry>, countries: seq<Country>, sid: Id, entries: seq<Entry>, start: int)
  {
    forall j :: 0 <= j < |rows| ==>
      && rows[j].stageId == sid
      && start <= rows[j].order < start + |entries|
      && CountryIdByName(countries, entries[rows[j].order - start].country) == Some(rows[j].countryId)
  }

  lemma WellPlacedShift(rows: seq<StageCountry>, countries: seq<Country>, sid: Id, entries: seq<Entry>, start: int)
    requires |entries| > 0 && WellPlaced(rows, countries, sid, entries[1..], start + 1)
    ensures WellPlaced(rows, countries, sid, entries, start)
  {
    forall j | 0 <= j < |rows|
      ensures entries[rows[j].order - start] == entries[1..][rows[j].order - (start + 1)]
    {
    }
  }

  lemma WellPlacedConcat(a: seq<StageCountry>, b: seq<StageCountry>, countries: seq<Country>, sid: Id, entries: seq<Entry>, start: int)
    requires WellPlaced(a, countries, sid, entries, start) && WellPlaced(b, countries, sid, entries, start)
    ensures WellPlaced(a + b, countries, sid, entries, start)
  {
    forall j | 0 <= j < |a + b|
      ensures (a + b)[j] == if j < |a| then a[j] else b[j - |a|]
    {
    }
  }

  /** Every row of a running order belongs to its stage, carries the position of its entry, and
      links the country that entry names. */
  lemma {:induction false} BlockRowsShape(countries: seq<Country>, sid: Id, entries: seq<Entry>, start: int)
    ensures WellPlaced(BlockRows(countries, sid, entries, start), countries, sid, entries, start)
    decreases |entries|
  {
    if |entries| > 0 {
      var head := EntryRow(countries, sid, entries[0], start);
      var rest := BlockRows(countries, sid, entries[1..], start + 1);
      BlockRowsShape(countries, sid, entries[1..], start + 1);
      WellPlacedShift(rest, countries, sid, entries, start);
      assert WellPlaced(head, countries, sid, entries, start);
      WellPlacedConcat(head, rest, countries, sid, entries, start);
    }
  }

  lemma BlockRowsFrom(countries: seq<Country>, sid: Id, entries: seq<Entry>, start: int)
    ensures forall j :: 0 <= j < |BlockRows(countries, sid, entries, start)| ==>
                          start <= BlockRows(countries, sid, entries, start)[j].order
  {
    BlockRowsShape(countries, sid, entries, start);
  }

  /** Within one running order the orders strictly increase. */
  lemma {:induction false} BlockRowsIncreasing(countries: seq<Country>, sid: Id, entries: seq<Entry>, start: int)
    ensures StrictlyIncreasing(OrdersOf(BlockRows(countries, sid, entries, start)))
    decreases |entries|
  {
    if |entries| > 0 {
      var head := EntryRow(countries, sid, entries[0], start);
      var rest := BlockRows(countries, sid, entries[1..], start + 1);
      BlockRowsIncreasing(countries, sid, entries[1..], start + 1);
      BlockRowsFrom(countries, sid, entries[1..], start + 1);
      OrdersOfConcat(head, rest);
      var os := OrdersOf(head) + OrdersOf(rest);
      forall i, j | 0 <= i < j < |os| ensures os[i] < os[j] {
        if i < |head| {
          assert os[i] == start;
          assert os[j] == rest[j - |head|].order;
          assert rest[j - |head|].order >= start + 1;
        } else {
          assert os[i] == OrdersOf(rest)[i - |head|] && os[j] == OrdersOf(rest)[j - |head|];
        }
      }
    }
  }

  /** Position `start + i` holds a row exactly when entry `i`'s country exists: a missing
      country leaves a gap and does not shift later entries. */
  lemma {:induction false} BlockRowsGaps(countries: seq<Country>, sid: Id, entries: seq<Entry>, start: int, i: nat)
    requires i < |entries|
    ensures start + i in OrdersOf(BlockRows(countries, sid, entries, start))
            <==> CountryIdByName(countries, entries[i].country).Some?
    decreases |entries|
  {
    var head := EntryRow(countries, sid, entries[0], start);
    var rest := BlockRows(countries, sid, entries[1..], start + 1);
    OrdersOfConcat(head, rest);
    assert OrdersOf(BlockRows(countries, sid, entries, start)) == OrdersOf(head) + OrdersOf(rest);
    assert head != [] ==> OrdersOf(head) == [start];
    if i == 0 {
      BlockRowsShape(countries, sid, entries[1..], start + 1);
      assert start !in OrdersOf(rest) by {
        forall j | 0 <= j < |rest| ensures OrdersOf(rest)[j] != start {
          assert WellPlaced(rest, countries, sid, entries[1..], start + 1);
          assert rest[j].order >= start + 1;
        }
      }
    } else {
      assert entries[1..][i - 1] == entries[i];
      BlockRowsGaps(countries, sid, entries[1..], start + 1, i - 1);
      assert start + i !in OrdersOf(head);
    }
  }

  /** The rows for one item of the data: its running order if a stage has that name, else none. */
  function ItemRows(st: Store, d: StageData): seq<StageCountry>
  {
    match StageIdByName(st.stages, d.stageName)
    case None => []
    case Some(sid) => BlockRows(st.countries, sid, d.entries, 1)
  }

  /** One item's rows link an existing stage to existing countries. */
  lemma ItemRowsLink(st: Store, d: StageData)
    ensures forall x :: x in ItemRows(st, d) ==> Links(x, st.stages, st.countries)
  {
    match StageIdByName(st.stages, d.stageName)
    case None =>
    case Some(sid) =>
      BlockRowsShape(st.countries, sid, d.entries, 1);
  }

  /** The rows the real-data branch creates, item by item in dict order. Only existing stages
      and countries are linked: an unknown name is skipped, never invented. */
  function RealRows(st: Store, data: seq<StageData>): (r: seq<StageCountry>)
    ensures forall x :: x in r ==> Links(x, st.stages, st.countries)
    decreases |data|
  {
    if |data| == 0 then []
    else
      ItemRowsLink(st, data[0]);
      ItemRows(st, data[0]) + RealRows(st, data[1..])
  }

  lemma {:induction false} RowsOfStageAllOf(rows: seq<StageCountry>, sid: Id)
    requires forall j :: 0 <= j < |rows| ==> rows[j].stageId == sid
    ensures RowsOfStage(rows, sid) == rows
    decreases |rows|
  {
    if |rows| > 0 {
      RowsOfStageAllOf(rows[..|rows| - 1], sid);
      assert rows == rows[..|rows| - 1] + [rows[|rows| - 1]];
    }
  }

  lemma {:induction false} RowsOfStageNoneOf(rows: seq<StageCountry>, sid: Id)
    requires forall j :: 0 <= j < |rows| ==> rows[j].stageId != sid
    ensures RowsOfStage(rows, sid) == []
    decreases |rows|
  {
    if |rows| > 0 {
      RowsOfStageNoneOf(rows[..|rows| - 1], sid);
    }
  }

  /** One item contributes to stage `sid` exactly when its name leads to `sid`. */
  lemma ItemRowsOfStage(st: Store, d: StageData, sid: Id)
    ensures StageIdByName(st.stages, d.stageName) == Some(sid) ==>
              RowsOfStage(ItemRows(st, d), sid) == BlockRows(st.countries, sid, d.entries, 1)
    ensures StageIdByName(st.stages, d.stageName) != Some(sid) ==> RowsOfStage(ItemRows(st, d), sid) == []
  {
    var rows := ItemRows(st, d);
    var found := StageIdByName(st.stages, d.stageName);
    if found.Some? {
      var s := found.value;
      BlockRowsShape(st.countries, s, d.entries, 1);
      assert forall j :: 0 <= j < |rows| ==> rows[j].stageId == s;
      if s == sid {
        RowsOfStageAllOf(rows, sid);
      } else {
        RowsOfStageNoneOf(rows, sid);
      }
    }
  }

  /** In a valid store two different names cannot lead to the same stage id. */
  lemma StageIdNamesOneStage(stages: seq<Stage>, a: string, b: string)
    requires Distinct(StageIds(stages))
    requires StageIdByName(stages, a).Some? && StageIdByName(stages, a) == StageIdByName(stages, b)
    ensures a == b
  {
    var i, j := FindStageByName(stages, a).value, FindStageByName(stages, b).value;
    assert StageIds(stages)[i] == stages[i].id && StageIds(stages)[j] == stages[j].id;
    assert i == j;
  }

  /** A stage that no item of the data names gets no rows. */
  lemma {:induction false} RealRowsSkipUnnamed(st: Store, data: seq<StageData>, sid: Id)
    requires forall k :: 0 <= k < |data| ==> StageIdByName(st.stages, data[k].stageName) != Some(sid)
    ensures RowsOfStage(RealRows(st, data), sid) == []
    decreases |data|
  {
    if |data| > 0 {
      ItemRowsOfStage(st, data[0], sid);
      assert forall k :: 0 <= k < |data[1..]| ==> data[1..][k] == data[k + 1];
      RealRowsSkipUnnamed(st, data[1..], sid);
      RowsOfStageConcat(ItemRows(st, data[0]), RealRows(st, data[1..]), sid);
    }
  }

  /** In the real-data branch a stage's rows are exactly the running order of the one data item
      naming it: each present country at its 1-based list position, orders strictly increasing. */
  lemma {:induction false} RealStageRoster(st: Store, data: seq<StageData>, k: nat, sid: Id)
    requires Valid(st) && DistinctStageNames(data)
    requires k < |data| && StageIdByName(st.stages, data[k].stageName) == Some(sid)
    ensures RowsOfStage(RealRows(st, data), sid) == BlockRows(st.countries, sid, data[k].entries, 1)
    ensures StrictlyIncreasing(StageOrders(RealRows(st, data), sid))
    decreases |data|
  {
    var head, rest := ItemRows(st, data[0]), RealRows(st, data[1..]);
    RowsOfStageConcat(head, rest, sid);
    ItemRowsOfStage(st, data[0], sid);
    if k == 0 {
      forall j | 0 <= j < |data[1..]|
        ensures StageIdByName(st.stages, data[1..][j].stageName) != Some(sid)
      {
        assert data[1..][j] == data[j + 1];
        if StageIdByName(st.stages, data[j + 1].stageName) == Some(sid) {
          StageIdNamesOneStage(st.stages, data[0].stageName, data[j + 1].stageName);
        }
      }
      RealRowsSkipUnnamed(st, data[1..], sid);
    } else {
      if StageIdByName(st.stages, data[0].stageName) == Some(sid) {
        StageIdNamesOneStage(st.stages, data[0].stageName, data[k].stageName);
      }
      assert data[1..][k - 1] == data[k];
      assert DistinctStageNames(data[1..]) by {
        assert forall i :: 0 <= i < |data[1..]| ==> data[1..][i] == data[i + 1];
      }
      RealStageRoster(st, data[1..], k - 1, sid);
    }
    BlockRowsIncreasing(st.countries, sid, data[k].entries, 1);
  }

  /** The real-data rows depend only on the stage and country tables. */
  lemma {:induction false} RealRowsReadsCatalog(a: Store, b: Store, data: seq<StageData>)
    requires a.stages == b.stages && a.countries == b.countries
    ensures RealRows(a, data) == RealRows(b, data)
    decreases |data|
  {
    if |data| > 0 {
      RealRowsReadsCatalog(a, b, data[1..]);
    }
  }

  /** `assign_countries_to_stages()`, real-data branch: every StageCountry row is replaced. */
  function AssignReal(st: Store, data: seq<StageData>): (r: Store)
    ensures r == st.(stageCountries := r.stageCountries)
    ensures forall x :: x in r.stageCountries ==> Links(x, st.stages, st.countries)
  {
    st.(stageCountries := RealRows(st, data))
  }

  // ---- assign_countries_to_stages, dummy branch ----

  /** One country's draw: `k = random.randint(1, 2)`, then `random.sample(stages, k)` as
      positions into the stage list. */
  datatype Draw = Draw(k: nat, picks: seq<nat>)

  predicate InRange(picks: seq<nat>, n: nat)
  {
    forall i :: 0 <= i < |picks| ==> picks[i] < n
  }

  /** What `randint` and `sample` can return: k is 1 or 2, and when k does not exceed the number
      of stages the sample is k distinct positions (otherwise `sample` raises). */
  predicate WellDrawn(d: Draw, nStages: nat)
  {
    && 1 <= d.k <= 2
    && (d.k <= nStages ==> |d.picks| == d.k && Distinct(d.picks) && InRange(d.picks, nStages))
  }

  predicate WellDrawnAll(draws: seq<Draw>, nStages: nat)
  {
    forall i :: 0 <= i < |draws| ==> WellDrawn(draws[i], nStages)
  }

  /** No draw asks `random.sample` for more stages than exist. */
  predicate Samplable(draws: seq<Draw>, nStages: nat)
  {
    forall i :: 0 <= i < |draws| ==> draws[i].k <= nStages
  }

  /** Every draw names stages that exist. */
  predicate DrawsFit(draws: seq<Draw>, nStages: nat)
  {
    forall i :: 0 <= i < |draws| ==> InRange(draws[i].picks, nStages)
  }

  lemma SamplableDrawsFit(draws: seq<Draw>, nStages: nat)
    requires WellDrawnAll(draws, nStages) && Samplable(draws, nStages)
    ensures DrawsFit(draws, nStages)
  {
    forall i | 0 <= i < |draws| ensures InRange(draws[i].picks, nStages) {
      assert WellDrawn(draws[i], nStages) && draws[i].k <= nStages;
    }
  }

  function PickIds(stages: seq<Stage>, picks: seq<nat>): seq<Id>
    requires InRange(picks, |stages|)
  {
    seq(|picks|, i requires 0 <= i < |picks| => stages[picks[i]].id)
  }

  /** One placement: the row for (sid, cid) numbered one past the largest order already in that
      stage, or 1 when the stage has none. */
  function PlaceNext(rows: seq<StageCountry>, sid: Id, cid: Id): seq<StageCountry>
  {
    rows + [StageCountry(sid, cid, MaxOrderOrZero(rows, sid) + 1)]
  }

  lemma InRangeTail(picks: seq<nat>, n: nat)
    requires |picks| > 0 && InRange(picks, n)
    ensures picks[0] < n && InRange(picks[1..], n)
  {
    assert forall j :: 0 <= j < |picks| - 1 ==> picks[1..][j] == picks[j + 1];
  }

  /** Place one country in each of its drawn stages, in draw order. */
  function PlaceCountry(rows: seq<StageCountry>, stages: seq<Stage>, cid: Id, picks: seq<nat>): (r: seq<StageCountry>)
    requires InRange(picks, |stages|)
    ensures |r| == |rows| + |picks| && r[..|rows|] == rows
    decreases |picks|
  {
    if |picks| == 0 then rows
    else
      InRangeTail(picks, |stages|);
      var r := PlaceCountry(PlaceNext(rows, stages[picks[0]].id, cid), stages, cid, picks[1..]);
      assert r[..|rows|] == (r[..|rows| + 1])[..|rows|];
      r
  }

  /** Every row a placement appends is for the placed country and a listed stage. */
  lemma {:induction false} PlaceCountryLink(rows: seq<StageCountry>, stages: seq<Stage>, cid: Id, picks: seq<nat>)
    requires InRange(picks, |stages|)
    ensures forall j :: |rows| <= j < |PlaceCountry(rows, stages, cid, picks)| ==>
                          && PlaceCountry(rows, stages, cid, picks)[j].countryId == cid
                          && PlaceCountry(rows, stages, cid, picks)[j].stageId in StageIds(stages)
    decreases |picks|
  {
    if |picks| > 0 {
      InRangeTail(picks, |stages|);
      var sid := stages[picks[0]].id;
      assert StageIds(stages)[picks[0]] == sid;
      var next := PlaceNext(rows, sid, cid);
      var r := PlaceCountry(next, stages, cid, picks[1..]);
      PlaceCountryLink(next, stages, cid, picks[1..]);
      assert r[|rows|] == r[..|next|][|rows|] == next[|rows|];
    }
  }

  lemma {:induction false} PlaceCountryContiguous(rows: seq<StageCountry>, stages: seq<Stage>, cid: Id, picks: seq<nat>)
    requires InRange(picks, |stages|)
    requires Contiguous(rows)
    ensures Contiguous(PlaceCountry(rows, stages, cid, picks))
    decreases |picks|
  {
    if |picks| > 0 {
      InRangeTail(picks, |stages|);
      var sid := stages[picks[0]].id;
      AppendNextKeepsContiguous(rows, sid, cid);
      PlaceCountryContiguous(PlaceNext(rows, sid, cid), stages, cid, picks[1..]);
    }
  }

  lemma {:induction false} PlaceCountryStages(rows: seq<StageCountry>, stages: seq<Stage>, cid: Id, picks: seq<nat>, c: Id)
    requires InRange(picks, |stages|)
    ensures StagesOf(PlaceCountry(rows, stages, cid, picks), c)
            == StagesOf(rows, c) + (if c == cid then PickIds(stages, picks) else [])
    decreases |picks|
  {
    if |picks| > 0 {
      InRangeTail(picks, |stages|);
      var sid := stages[picks[0]].id;
      StagesOfSnoc(rows, StageCountry(sid, cid, MaxOrderOrZero(rows, sid) + 1), c);
      PlaceCountryStages(PlaceNext(rows, sid, cid), stages, cid, picks[1..], c);
      assert PickIds(stages, picks) == [sid] + PickIds(stages, picks[1..]);
    }
  }

  /** The rows of the dummy branch: countries in table order, each placed in its drawn stages. */
  function DummyRows(rows: seq<StageCountry>, stages: seq<Stage>, countries: seq<Country>, draws: seq<Draw>): (r: seq<StageCountry>)
    requires |draws| == |countries| && DrawsFit(draws, |stages|)
    ensures |rows| <= |r| && r[..|rows|] == rows
    decreases |countries|
  {
    if |countries| == 0 then rows
    else
      var placed := PlaceCountry(rows, stages, countries[0].id, draws[0].picks);
      var r := DummyRows(placed, stages, countries[1..], draws[1..]);
      assert r[..|rows|] == r[..|placed|][..|rows|];
      r
  }

  /** Every row the dummy branch appends links a listed stage to a listed country. */
  lemma {:induction false} DummyRowsLink(rows: seq<StageCountry>, stages: seq<Stage>, countries: seq<Country>, draws: seq<Draw>)
    requires |draws| == |countries| && DrawsFit(draws, |stages|)
    ensures forall j :: |rows| <= j < |DummyRows(rows, stages, countries, draws)| ==>
                          Links(DummyRows(rows, stages, countries, draws)[j], stages, countries)
    decreases |countries|
  {
    if |countries| > 0 {
      var placed := PlaceCountry(rows, stages, countries[0].id, draws[0].picks);
      var r := DummyRows(placed, stages, countries[1..], draws[1..]);
      PlaceCountryLink(rows, stages, countries[0].id, draws[0].picks);
      DummyRowsLink(placed, stages, countries[1..], draws[1..]);
      var ids := CountryIds(countries);
      assert ids[0] == countries[0].id;
      assert CountryIds(countries[1..]) == ids[1..];
      forall j | |rows| <= j < |r| ensures Links(r[j], stages, countries) {
        if j < |placed| {
          assert r[j] == r[..|placed|][j] == placed[j];
          assert placed[j].countryId == countries[0].id && placed[j].stageId in StageIds(stages);
        } else {
          assert Links(r[j], stages, countries[1..]);
          assert r[j].countryId in ids[1..];
        }
      }
    }
  }

  /** Numbering by "max existing order + 1" keeps every stage numbered 1..k. */
  lemma {:induction false} DummyRowsContiguous(rows: seq<StageCountry>, stages: seq<Stage>, countries: seq<Country>, draws: seq<Draw>)
    requires |draws| == |countries| && DrawsFit(draws, |stages|)
    requires Contiguous(rows)
    ensures Contiguous(DummyRows(rows, stages, countries, draws))
    decreases |countries|
  {
    if |countries| > 0 {
      PlaceCountryContiguous(rows, stages, countries[0].id, draws[0].picks);
      DummyRowsContiguous(PlaceCountry(rows, stages, countries[0].id, draws[0].picks), stages, countries[1..], draws[1..]);
    }
  }

  /** A country id not in the list gains no placement. */
  lemma {:induction false} DummyRowsOthers(rows: seq<StageCountry>, stages: seq<Stage>, countries: seq<Country>,
                                           draws: seq<Draw>, c: Id)
    requires |draws| == |countries| && DrawsFit(draws, |stages|)
    requires forall j :: 0 <= j < |countries| ==> countries[j].id != c
    ensures StagesOf(DummyRows(rows, stages, countries, draws), c) == StagesOf(rows, c)
    decreases |countries|
  {
    if |countries| > 0 {
      PlaceCountryStages(rows, stages, countries[0].id, draws[0].picks, c);
      var p := PlaceCountry(rows, stages, countries[0].id, draws[0].picks);
      assert forall j :: 0 <= j < |countries| - 1 ==> countries[1..][j] == countries[j + 1];
      DummyRowsOthers(p, stages, countries[1..], draws[1..], c);
    }
  }

  /** Under distinct ids, the head's id is not in the tail, and the tail's ids stay distinct. */
  lemma DistinctCountryTail(countries: seq<Country>)
    requires |countries| > 0 && Distinct(CountryIds(countries))
    ensures forall j :: 0 <= j < |countries| - 1 ==> countries[1..][j].id != countries[0].id
    ensures Distinct(CountryIds(countries[1..]))
  {
    var ids := CountryIds(countries);
    assert CountryIds(countries[1..]) == ids[1..];
    forall j | 0 <= j < |countries| - 1 ensures countries[1..][j].id != countries[0].id {
      assert ids[0] == countries[0].id && ids[j + 1] == countries[1..][j].id;
    }
  }

  /** With distinct country ids, the country at index i ends up in exactly the stages drawn for
      it, in draw order. */
  lemma {:induction false} DummyRowsStages(rows: seq<StageCountry>, stages: seq<Stage>, countries: seq<Country>,
                                           draws: seq<Draw>, i: nat)
    requires |draws| == |countries| && DrawsFit(draws, |stages|)
    requires Distinct(CountryIds(countries)) && i < |countries|
    ensures InRange(draws[i].picks, |stages|)
    ensures StagesOf(DummyRows(rows, stages, countries, draws), countries[i].id)
            == StagesOf(rows, countries[i].id) + PickIds(stages, draws[i].picks)
    decreases |countries|, 1
  {
    DistinctCountryTail(countries);
    if i == 0 {
      var c := countries[0].id;
      PlaceCountryStages(rows, stages, c, draws[0].picks, c);
      DummyRowsOthers(PlaceCountry(rows, stages, c, draws[0].picks), stages, countries[1..], draws[1..], c);
    } else {
      DummyRowsStagesLater(rows, stages, countries, draws, i);
    }
  }

  /** The step of `DummyRowsStages` for a country after the first: placing the first country
      leaves its placements alone, and the rest is the same claim on the tail. */
  lemma {:induction false} DummyRowsStagesLater(rows: seq<StageCountry>, stages: seq<Stage>, countries: seq<Country>,
                                                draws: seq<Draw>, i: nat)
    requires |draws| == |countries| && DrawsFit(draws, |stages|)
    requires Distinct(CountryIds(countries)) && 0 < i < |countries|
    ensures InRange(draws[i].picks, |stages|)
    ensures StagesOf(DummyRows(rows, stages, countries, draws), countries[i].id)
            == StagesOf(rows, countries[i].id) + PickIds(stages, draws[i].picks)
    decreases |countries|, 0
  {
    var c := countries[i].id;
    var p := PlaceCountry(rows, stages, countries[0].id, draws[0].picks);
    PlaceCountryStages(rows, stages, countries[0].id, draws[0].picks, c);
    DistinctCountryTail(countries);
    assert countries[1..][i - 1] == countries[i];
    assert c != countries[0].id;
    DummyRowsStages(p, stages, countries[1..], draws[1..], i - 1);
    assert draws[1..][i - 1] == draws[i];
  }

  /** Whether the dummy branch ran to the end. */
  datatype AssignOutcome = Assigned | SampleTooLarge

  /** `assign_countries_to_stages()`, dummy branch. A draw asking for more stages than exist
      makes `random.sample` raise: the delete was already committed and the pending rows are
      rolled back, so no StageCountry row remains. */
  function AssignDummy(st: Store, draws: seq<Draw>): (r: (Store, AssignOutcome))
    requires |draws| == |st.countries| && WellDrawnAll(draws, |st.stages|)
    ensures r.0 == st.(stageCountries := r.0.stageCountries)
    ensures r.1 == SampleTooLarge ==> r.0.stageCountries == []
  {
    if Samplable(draws, |st.stages|) then
      SamplableDrawsFit(draws, |st.stages|);
      (st.(stageCountries := DummyRows([], st.stages, st.countries, draws)), Assigned)
    else
      (st.(stageCountries := []), SampleTooLarge)
  }

  lemma EmptyContiguous()
    ensures Contiguous([])
  {
    forall sid ensures StageOrders([], sid) == OneTo(|RowsOfStage([], sid)|) {
      assert OneTo(0) == [];
    }
  }

  /** Dummy branch: the run completes exactly when no draw exceeds the number of stages; then
      every stage is numbered 1..k and each country is in one or two distinct stages, exactly
      those drawn for it. */
  lemma DummyAssignment(st: Store, draws: seq<Draw>, i: nat)
    requires |draws| == |st.countries| && WellDrawnAll(draws, |st.stages|)
    requires Valid(st) && i < |st.countries|
    ensures AssignDummy(st, draws).1 == Assigned <==> Samplable(draws, |st.stages|)
    ensures var r := AssignDummy(st, draws).0;
            AssignDummy(st, draws).1 == Assigned ==>
              && Contiguous(r.stageCountries)
              && InRange(draws[i].picks, |st.stages|)
              && StagesOf(r.stageCountries, st.countries[i].id) == PickIds(st.stages, draws[i].picks)
              && 1 <= |StagesOf(r.stageCountries, st.countries[i].id)| <= 2
              && Distinct(StagesOf(r.stageCountries, st.countries[i].id))
  {
    if Samplable(draws, |st.stages|) {
      SamplableDrawsFit(draws, |st.stages|);
      EmptyContiguous();
      DummyRowsContiguous([], st.stages, st.countries, draws);
      DummyRowsStages([], st.stages, st.countries, draws, i);
      assert StagesOf([], st.countries[i].id) == [];
      var ids := PickIds(st.stages, draws[i].picks);
      assert WellDrawn(draws[i], |st.stages|) && draws[i].k <= |st.stages|;
      forall a, b | 0 <= a < b < |ids| ensures ids[a] != ids[b] {
        var pa, pb := draws[i].picks[a], draws[i].picks[b];
        assert pa != pb && pa < |st.stages| && pb < |st.stages|;
        assert StageIds(st.stages)[pa] == ids[a];
        assert StageIds(st.stages)[pb] == ids[b];
      }
    }
  }

  // ---- assign_countries_to_stages and initialize_database ----

  /** `assign_countries_to_stages()`: delete every StageCountry row, then rebuild them from the
      real data or from the draws. Nothing but the StageCountry table changes. */
  function AssignCountriesToStages(st: Store, useReal: bool, data: seq<StageData>, draws: seq<Draw>): (r: (Store, AssignOutcome))
    requires !useReal ==> |draws| == |st.countries| && WellDrawnAll(draws, |st.stages|)
    ensures r.0 == st.(stageCountries := r.0.stageCountries)
    ensures useReal ==> r.1 == Assigned
    ensures Valid(st) ==> Valid(r.0)
  {
    if useReal then (AssignReal(st, data), Assigned) else AssignDummy(st, draws)
  }

  /** The rows left behind do not depend on the rows there before: the delete comes first. */
  lemma AssignIgnoresPriorRows(st: Store, prior: seq<StageCountry>, useReal: bool, data: seq<StageData>, draws: seq<Draw>)
    requires !useReal ==> |draws| == |st.countries| && WellDrawnAll(draws, |st.stages|)
    ensures AssignCountriesToStages(st.(stageCountries := prior), useReal, data, draws)
            == AssignCountriesToStages(st, useReal, data, draws)
  {
    RealRowsReadsCatalog(st, st.(stageCountries := prior), data);
  }

  /** `initialize_database()`: stages, then countries, then assignments. */
  function InitializeDatabase(st: Store, useReal: bool, dummy: DummyData, realData: seq<StageData>,
                              enumeration: seq<Entry>, draws: seq<Draw>): (r: (Store, AssignOutcome))
    requires useReal ==> EnumeratesSetOf(enumeration, AllEntries(realData))
    requires !useReal ==>
      var s := AddCountries(AddStages(st, dummy.stages), useReal, dummy.countries, realData, enumeration);
      |draws| == |s.countries| && WellDrawnAll(draws, |s.stages|)
    ensures r.0.users == st.users && r.0.association == st.association && r.0.grades == st.grades
    ensures |st.stages| <= |r.0.stages| && r.0.stages[..|st.stages|] == st.stages
    ensures |st.countries| <= |r.0.countries| && r.0.countries[..|st.countries|] == st.countries
  {
    var s1 := AddStages(st, dummy.stages);
    var s2 := AddCountries(s1, useReal, dummy.countries, realData, enumeration);
    AssignCountriesToStages(s2, useReal, realData, draws)
  }

  /** After initialisation the store is still valid, every dummy stage name and every seed
      country name has a row, and in dummy mode a completed run numbers every stage 1..k. */
  lemma InitializeDatabaseSpec(st: Store, useReal: bool, dummy: DummyData, realData: seq<StageData>,
                               enumeration: seq<Entry>, draws: seq<Draw>)
    requires Valid(st)
    requires useReal ==> EnumeratesSetOf(enumeration, AllEntries(realData))
    requires !useReal ==>
      var s := AddCountries(AddStages(st, dummy.stages), useReal, dummy.countries, realData, enumeration);
      |draws| == |s.countries| && WellDrawnAll(draws, |s.stages|)
    ensures var r := InitializeDatabase(st, useReal, dummy, realData, enumeration, draws);
      && Valid(r.0)
      && (forall n :: n in dummy.stages ==> FindStageByName(r.0.stages, n).Some?)
      && (useReal ==> forall e :: e in AllEntries(realData) ==> FindCountryByName(r.0.countries, e.country).Some?)
      && (!useReal ==> forall n :: n in dummy.countries ==> FindCountryByName(r.0.countries, n).Some?)
      && (!useReal && r.1 == Assigned ==> Contiguous(r.0.stageCountries))
  {
    var s1 := AddStages(st, dummy.stages);
    var s2 := AddCountries(s1, useReal, dummy.countries, realData, enumeration);
    AddStagesValid(st, dummy.stages);
    AddStagesCovers(st, dummy.stages);
    AddCountriesValid(s1, useReal, dummy.countries, realData, enumeration);
    if useReal {
      AddCountriesRealSpec(s1, dummy.countries, realData, enumeration);
    } else {
      AddCountriesDummySpec(s1, dummy.countries, realData, enumeration);
      if |s2.countries| > 0 {
        DummyAssignment(s2, draws, 0);
      } else if Samplable(draws, |s2.stages|) {
        EmptyContiguous();
      }
    }
  }
}
