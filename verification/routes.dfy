/** The request handlers of app/routes.py as transitions over (store, session): login by
    get-or-create, logout, and the session-gated stage view. */
module Routes {
  import opened Wrappers
  import opened Seqs
  import opened Models
  import opened Forms

  /** The two session keys the handlers use; None is an absent key. */
  datatype Session = Session(userId: Option<Id>, username: Option<string>)

  /** What a handler answers with; templates are reduced to the data they are given. */
  datatype Response =
    | RedirectToIndex
    | NotFound
    | IndexPage(stages: seq<Stage>)
    | StagePage(stage: Stage, countries: seq<Country>)

  /** `logout()`: `session.pop('user_id', None)`, then a redirect. */
  function Logout(s: Session): (r: (Session, Response))
    ensures r.0.userId.None?
    ensures r.0.username == s.username
    ensures r.1 == RedirectToIndex
  {
    (s.(userId := None), RedirectToIndex)
  }

  /** Logging out twice is logging out once, and logging out while logged out changes nothing. */
  lemma LogoutIdempotent(s: Session)
    ensures Logout(Logout(s).0) == Logout(s)
    ensures s.userId.None? ==> Logout(s).0 == s
  {
  }

  /** `index()`: on a valid login, fetch the first user with the submitted name or create one,
      and record both in the session; in every case show all stages. */
  function Index(st: Store, s: Session, sub: Submission, username: Option<string>): (r: (Store, Session, Response))
    ensures r.0 == st.(users := r.0.users)
    ensures r.2 == IndexPage(st.stages)
    ensures !LoginValidates(sub, username) ==> r.0 == st && r.1 == s
    ensures LoginValidates(sub, username) ==>
              && r.1.username == username
              && r.1.userId.Some?
              && FindUser(r.0.users, username.value).Some?
              && r.0.users[FindUser(r.0.users, username.value).value].id == r.1.userId.value
    ensures |st.users| <= |r.0.users| <= |st.users| + 1 && r.0.users[..|st.users|] == st.users
    ensures Valid(st) ==> Valid(r.0)
  {
    if !LoginValidates(sub, username) then (st, s, IndexPage(st.stages))
    else
      var name := username.value;
      match FindUser(st.users, name)
      case Some(k) =>
        (st, Session(Some(st.users[k].id), username), IndexPage(st.stages))
      case None =>
        var u := User(NextId(UserIds(st.users)), name);
        var r := st.(users := st.users + [u]);
        assert UserIds(r.users) == UserIds(st.users) + [u.id];
        assert forall i :: 0 <= i < |st.users| ==> UserIds(st.users)[i] == st.users[i].id;
        assert r.users[|st.users|].username == name;
        (r, Session(Some(u.id), username), IndexPage(st.stages))
  }

  /** A valid login with a name nobody has adds exactly one user, with that name and a fresh
      id, and logs the session in as that user. */
  lemma IndexCreatesUnseen(st: Store, s: Session, sub: Submission, name: string)
    requires LoginValidates(sub, Some(name)) && FindUser(st.users, name).None?
    ensures var r := Index(st, s, sub, Some(name));
            && |r.0.users| == |st.users| + 1
            && r.0.users[|st.users|].username == name
            && (forall i :: 0 <= i < |st.users| ==> st.users[i].id != r.0.users[|st.users|].id)
            && r.1 == Session(Some(r.0.users[|st.users|].id), Some(name))
  {
    assert forall i :: 0 <= i < |st.users| ==> UserIds(st.users)[i] == st.users[i].id;
  }

  /** A valid login with a known name adds no user and logs in as the user holding that name. */
  lemma IndexReusesSeen(st: Store, s: Session, sub: Submission, name: string, k: nat)
    requires Valid(st) && LoginValidates(sub, Some(name))
    requires k < |st.users| && st.users[k].username == name
    ensures Index(st, s, sub, Some(name)).0 == st
    ensures Index(st, s, sub, Some(name)).1 == Session(Some(st.users[k].id), Some(name))
  {
    FindUserIsTheUser(st.users, name, k);
  }

  /** Logging in again with the same name, from any session, creates no second user and yields
      the same user id. */
  lemma LoginTwiceCreatesOnce(st: Store, s: Session, s': Session, sub: Submission, name: string)
    requires Valid(st) && LoginValidates(sub, Some(name))
    ensures var r := Index(st, s, sub, Some(name));
            var r' := Index(r.0, s', sub, Some(name));
            r'.0 == r.0 && r'.1 == r.1
  {
    var r := Index(st, s, sub, Some(name));
    var k := FindUser(r.0.users, name).value;
    IndexReusesSeen(r.0, s', sub, name, k);
  }

  /** `stage(stage_id)`: redirect without a logged-in user; 404 for an unknown id; otherwise the
      stage and the countries linked to it through `association`. */
  function StageView(st: Store, s: Session, stageId: Id): (r: Response)
    ensures s.userId.None? <==> r == RedirectToIndex
    ensures r == NotFound <==> s.userId.Some? && (forall i :: 0 <= i < |st.stages| ==> st.stages[i].id != stageId)
    ensures r.StagePage? ==>
              && r.stage in st.stages && r.stage.id == stageId
              && (forall c :: c in r.countries <==> c in st.countries && AssocRow(stageId, c.id) in st.association)
  {
    if s.userId.None? then RedirectToIndex
    else
      match FindStageById(st.stages, stageId)
      case None => NotFound
      case Some(k) => StagePage(st.stages[k], CountriesOfStage(st, stageId))
  }

  /** Without a logged-in user the view answers the same whatever the store holds: it reads
      nothing. */
  lemma StageViewGateReadsNothing(st: Store, st': Store, s: Session, stageId: Id)
    requires s.userId.None?
    ensures StageView(st, s, stageId) == StageView(st', s, stageId)
  {
  }

  /** Under distinct stage ids the page shows the one stage with the requested id, and a country
      is listed exactly when the stage is in its `Country.stages`. */
  lemma StageViewShowsLinkedCountries(st: Store, s: Session, k: nat, c: Country)
    requires Valid(st) && s.userId.Some? && k < |st.stages| && c in st.countries
    ensures var r := StageView(st, s, st.stages[k].id);
            && r == StagePage(st.stages[k], r.countries)
            && (c in r.countries <==> st.stages[k] in StagesOfCountry(st, c.id))
  {
    var sid := st.stages[k].id;
    var i := FindStageById(st.stages, sid).value;
    assert StageIds(st.stages)[i] == sid == StageIds(st.stages)[k];
    RelationshipViewsAgree(st, st.stages[k], c);
  }
}
