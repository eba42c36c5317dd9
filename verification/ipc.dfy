/** The main-process request handlers (src/main/index.ts, the `ipcMain.handle`
    bodies): each takes the application state, the registry paired with the
    global git configuration, and returns the next state with the handler's
    reply. A thrown error becomes a `Failure` reply. */
module Ipc {
  import opened Wrappers
  import opened Types
  import opened ProfileStore
  import opened GitManager

  /** Everything the handlers read or change. */
  datatype App = App(registry: State, config: Config)

  /** A handler's outcome: the next state, and the value or error the caller receives. */
  datatype Reply<T> = Reply(app: App, result: Result<T, Error>)

  /** `get-profiles`. */
  function GetProfilesHandler(app: App): (r: Reply<seq<Profile>>)
    ensures r.app == app && r.result == Success(app.registry.profiles)
    ensures forall id :: HasId(r.result.value, id) <==> GetProfile(app.registry, id).Some?
  {
    Reply(app, Success(GetProfiles(app.registry)))
  }

  /** `create-profile`, with the fresh id supplied by the caller. */
  function CreateProfileHandler(app: App, input: ProfileCreate, freshId: string): (r: Reply<Profile>)
    requires !HasId(app.registry.profiles, freshId)
    ensures r.app.config == app.config && r.result.Success?
    ensures r.app.registry == CreateProfile(app.registry, input, freshId).0
    ensures r.result.value == CreateProfile(app.registry, input, freshId).1
    ensures r.app.registry.profiles == app.registry.profiles + [r.result.value]
    ensures r.app.registry.activeProfileId == app.registry.activeProfileId
    ensures GetProfile(r.app.registry, freshId) == Some(r.result.value)
    ensures Fields(r.result.value) == input && !r.result.value.isActive
  {
    GetAfterCreate(app.registry, input, freshId);
    var created := CreateProfile(app.registry, input, freshId);
    Reply(App(created.0, app.config), Success(created.1))
  }

  /** `update-profile`: delegates to the registry; "Profile not found" propagates. */
  function UpdateProfileHandler(app: App, p: Profile): (r: Reply<Profile>)
    ensures r.app.config == app.config
    ensures r.result.Failure? <==> !HasId(app.registry.profiles, p.id)
    ensures r.result.Failure? ==> r.app == app && r.result.error == NotFound
    ensures r.result.Success? ==> r.result.value == p && GetProfile(r.app.registry, p.id) == Some(p)
    ensures r.result.Success? ==> UpdateProfile(app.registry, p) == Success((r.app.registry, p))
    ensures r.result.Success? ==>
      && |r.app.registry.profiles| == |app.registry.profiles|
      && exists i :: FirstWithId(app.registry.profiles, p.id, i) && r.app.registry.profiles == app.registry.profiles[i := p]
    ensures r.app.registry.activeProfileId == app.registry.activeProfileId
  {
    match UpdateProfile(app.registry, p)
    case Failure(e) => Reply(app, Failure(e))
    case Success(updated) =>
      GetAfterUpdate(app.registry, p);
      Reply(App(updated.0, app.config), Success(updated.1))
  }

  /** `delete-profile`: delegates to the registry and returns nothing. */
  function DeleteProfileHandler(app: App, id: string): (r: Reply<()>)
    ensures r.app.config == app.config && r.result == Success(())
    ensures r.app.registry == DeleteProfile(app.registry, id)
    ensures GetProfile(r.app.registry, id).None?
    ensures forall q :: multiset(r.app.registry.profiles)[q] == if q.id == id then 0 else multiset(app.registry.profiles)[q]
    ensures app.registry.activeProfileId == Some(id) ==> r.app.registry.activeProfileId == None
    ensures app.registry.activeProfileId != Some(id) ==> r.app.registry.activeProfileId == app.registry.activeProfileId
  {
    Reply(App(DeleteProfile(app.registry, id), app.config), Success(()))
  }

  /** `set-active-profile`: look the profile up; when found, apply its identity
      and, only if that did not throw, point the registry at it. An unknown id
      is a silent no-op. */
  function SetActiveProfile(app: App, failing: set<string>, id: string): (r: Reply<()>)
    ensures !HasId(app.registry.profiles, id) ==> r == Reply(app, Success(()))
    ensures r.result.Failure? ==> r.app.registry == app.registry
    ensures r.result.Failure? ==> exists k :: k in failing && r.result.error == GitConfigFailed(k)
    ensures r.app.registry != app.registry ==>
      && r.result.Success?
      && r.app.registry.activeProfileId == Some(id)
      && FlagsMatch(r.app.registry)
    ensures HasId(app.registry.profiles, id) && r.result.Success? ==>
      && r.app.registry.activeProfileId == Some(id)
      && UserNameKey in r.app.config && r.app.config[UserNameKey] == GetProfile(app.registry, id).value.gitName
      && UserEmailKey in r.app.config && r.app.config[UserEmailKey] == GetProfile(app.registry, id).value.gitEmail
    ensures HasId(app.registry.profiles, id) && r.result.Success? ==>
      r.app.registry == SetActiveProfileId(app.registry, Some(id))
    ensures HasId(app.registry.profiles, id) && r.result.Success? ==>
      var p := GetProfile(app.registry, id).value;
      (Truthy(p.sshKeyPath) || SshCommandKey !in failing) ==> HasIdentity(r.app.config, p.gitName, p.gitEmail, p.sshKeyPath)
    ensures HasId(app.registry.profiles, id) ==>
      var p := GetProfile(app.registry, id).value;
      var a := SetProfile(app.config, failing, p.gitName, p.gitEmail, p.sshKeyPath);
      && r.app.config == a.config
      && (r.result.Success? <==> a.error.None?)
      && (a.error.Some? ==> r.result.error == a.error.value)
    ensures OnlyIdentityChanged(app.config, r.app.config)
  {
    match GetProfile(app.registry, id)
    case None => Reply(app, Success(()))
    case Some(profile) =>
      var applied := SetProfile(app.config, failing, profile.gitName, profile.gitEmail, profile.sshKeyPath);
      if applied.error.Some? then
        Reply(App(app.registry, applied.config), Failure(applied.error.value))
      else
        Reply(App(SetActiveProfileId(app.registry, Some(id)), applied.config), Success(()))
  }

  /** `get-current-profile`: `id ? getProfile(id) : null`, so an empty-string
      pointer reads as null just like a null one. Never changes the state. */
  function GetCurrentProfile(app: App): (r: Reply<Option<Profile>>)
    ensures r.app == app && r.result.Success?
    ensures r.result.value.Some? <==>
      app.registry.activeProfileId.Some? && app.registry.activeProfileId.value != ""
      && HasId(app.registry.profiles, app.registry.activeProfileId.value)
    ensures r.result.value.Some? ==>
      exists i :: FirstWithId(app.registry.profiles, app.registry.activeProfileId.value, i)
        && app.registry.profiles[i] == r.result.value.value
  {
    match app.registry.activeProfileId
    case None => Reply(app, Success(None))
    case Some(id) => if id == "" then Reply(app, Success(None)) else Reply(app, Success(GetProfile(app.registry, id)))
  }

  // ---------------------------------------------------------------------------
  // Activation and the current profile

  /** After a successful activation of a stored, non-empty id, the current
      profile is that record, flagged active, with its identity applied. */
  lemma ActivateThenCurrent(app: App, failing: set<string>, id: string)
    requires id != "" && HasId(app.registry.profiles, id)
    requires SetActiveProfile(app, failing, id).result.Success?
    ensures var after := SetActiveProfile(app, failing, id).app;
      var current := GetCurrentProfile(after).result.value;
      && current.Some?
      && current.value.id == id
      && current.value.isActive
      && SameButFlag(current.value, GetProfile(app.registry, id).value)
  {
    var after := SetActiveProfile(app, failing, id).app;
    var i :| FirstWithId(app.registry.profiles, id, i);
    assert FindIndex(app.registry.profiles, id) == i;
    assert SameButFlag(after.registry.profiles[i], app.registry.profiles[i]);
    assert FirstWithId(after.registry.profiles, id, i) by {
      forall j | 0 <= j < i
        ensures after.registry.profiles[j].id != id
      {
        assert SameButFlag(after.registry.profiles[j], app.registry.profiles[j]);
      }
    }
    assert FindIndex(after.registry.profiles, id) == i;
  }

  /** A failed activation leaves the current profile as it was. */
  lemma FailedActivationKeepsCurrent(app: App, failing: set<string>, id: string)
    requires SetActiveProfile(app, failing, id).result.Failure?
    ensures GetCurrentProfile(SetActiveProfile(app, failing, id).app).result
         == GetCurrentProfile(app).result
  {
  }

  /** Whenever activation moves the pointer, the configuration carries the newly
      active profile's identity (the SSH override included, unless removing it
      was a swallowed failure). */
  lemma PointerMovesOnlyWithIdentity(app: App, failing: set<string>, id: string)
    requires SetActiveProfile(app, failing, id).app.registry.activeProfileId != app.registry.activeProfileId
    ensures HasId(app.registry.profiles, id)
    ensures var p := GetProfile(app.registry, id).value;
      var cfg := SetActiveProfile(app, failing, id).app.config;
      (Truthy(p.sshKeyPath) || SshCommandKey !in failing) ==> HasIdentity(cfg, p.gitName, p.gitEmail, p.sshKeyPath)
  {
  }

  // ---------------------------------------------------------------------------
  // Invariants over every request

  /** One call into the main process. */
  datatype Request =
    | GetProfilesReq
    | CreateReq(input: ProfileCreate, freshId: string)
    | UpdateReq(profile: Profile)
    | DeleteReq(id: string)
    | SetActiveReq(id: string, failing: set<string>)
    | GetCurrentReq

  /** A creation request must come with an id nobody carries (a fresh UUID). */
  predicate Admissible(app: App, req: Request)
  {
    req.CreateReq? ==> !HasId(app.registry.profiles, req.freshId)
  }

  /** The state after serving one request. */
  function Step(app: App, req: Request): App
    requires Admissible(app, req)
  {
    match req
    case GetProfilesReq => GetProfilesHandler(app).app
    case CreateReq(input, freshId) => CreateProfileHandler(app, input, freshId).app
    case UpdateReq(p) => UpdateProfileHandler(app, p).app
    case DeleteReq(id) => DeleteProfileHandler(app, id).app
    case SetActiveReq(id, failing) => SetActiveProfile(app, failing, id).app
    case GetCurrentReq => GetCurrentProfile(app).app
  }

  /** Ids are unique and the active pointer, when set, names a stored profile. */
  predicate Wellformed(s: State)
  {
    UniqueIds(s.profiles) && PointerResolves(s)
  }

  /** Every request keeps the registry well-formed. */
  lemma StepKeepsWellformed(app: App, req: Request)
    requires Admissible(app, req) && Wellformed(app.registry)
    ensures Wellformed(Step(app, req).registry)
  {
    var s := app.registry;
    match req
    case GetProfilesReq =>
    case GetCurrentReq =>
    case CreateReq(input, freshId) =>
      CreateKeepsUniqueIds(s, input, freshId);
      if s.activeProfileId.Some? {
        HasIdAppend(s.profiles, NewProfile(input, freshId), s.activeProfileId.value);
      }
    case UpdateReq(p) =>
      if UpdateProfile(s, p).Success? {
        UpdateKeepsUniqueIds(s, p);
        var s' := UpdateProfile(s, p).value.0;
        if s.activeProfileId.Some? {
          var a := s.activeProfileId.value;
          var k :| 0 <= k < |s.profiles| && s.profiles[k].id == a;
          assert s'.profiles[k].id == a;
        }
      }
    case DeleteReq(id) =>
      DeleteKeepsUniqueIds(s, id);
      var s' := DeleteProfile(s, id);
      if s'.activeProfileId.Some? {
        var a := s.activeProfileId.value;
        var k :| 0 <= k < |s.profiles| && s.profiles[k].id == a;
        assert multiset(s'.profiles)[s.profiles[k]] > 0;
        var j :| 0 <= j < |s'.profiles| && s'.profiles[j] == s.profiles[k];
      }
    case SetActiveReq(id, failing) =>
      var s' := SetActiveProfile(app, failing, id).app.registry;
      if s' != s {
        SetActiveKeepsUniqueIds(s, Some(id));
        var k :| 0 <= k < |s.profiles| && s.profiles[k].id == id;
        assert SameButFlag(s'.profiles[k], s.profiles[k]);
      }
  }

  /** Every request except an update that supplies the wrong `isActive` keeps the
      flags in step with the pointer. */
  lemma StepKeepsFlags(app: App, req: Request)
    requires Admissible(app, req) && Wellformed(app.registry) && FlagsMatch(app.registry)
    requires req.UpdateReq? ==>
      (req.profile.isActive <==> app.registry.activeProfileId == Some(req.profile.id))
    ensures FlagsMatch(Step(app, req).registry)
  {
    var s := app.registry;
    match req
    case GetProfilesReq =>
    case GetCurrentReq =>
    case CreateReq(input, freshId) =>
      CreateKeepsFlags(s, input, freshId);
    case UpdateReq(p) =>
      if UpdateProfile(s, p).Success? {
        UpdateKeepsFlags(s, p);
      }
    case DeleteReq(id) =>
      DeleteKeepsFlags(s, id);
    case SetActiveReq(id, failing) =>
  }

  // ---------------------------------------------------------------------------
  // End to end

  const AliceKey: string := "/keys/id_alice"
  const AliceInput: ProfileCreate := ProfileCreate("Work", "Alice", "alice@example.com", Some(AliceKey))
  const BobInput: ProfileCreate := ProfileCreate("Home", "Bob", "bob@example.com", Some(""))

  /** Create a profile with a key and one without (the form's empty path),
      activate the first, then the second: the override follows, and the
      current profile ends as the second. */
  lemma SwitchScenario(config: Config)
    ensures var a0 := App(Initial, config);
      var a1 := CreateProfileHandler(a0, AliceInput, "p1").app;
      var a2 := CreateProfileHandler(a1, BobInput, "p2").app;
      var a3 := SetActiveProfile(a2, {}, "p1");
      var a4 := SetActiveProfile(a3.app, {}, "p2");
      && a3.result.Success?
      && SshCommandKey in a3.app.config && a3.app.config[SshCommandKey] == SshCommand(AliceKey)
      && a4.result.Success?
      && SshCommandKey !in a4.app.config
      && a4.app.config[UserNameKey] == "Bob"
      && GetCurrentProfile(a4.app).result.value.Some?
      && GetCurrentProfile(a4.app).result.value.value.id == "p2"
      && GetCurrentProfile(a4.app).result.value.value.isActive
  {
    var a0 := App(Initial, config);
    var a1 := CreateProfileHandler(a0, AliceInput, "p1").app;
    assert a1.registry.profiles == [NewProfile(AliceInput, "p1")];
    assert !HasId(a1.registry.profiles, "p2");
    var a2 := CreateProfileHandler(a1, BobInput, "p2").app;
    var ps := a2.registry.profiles;
    assert ps == [NewProfile(AliceInput, "p1"), NewProfile(BobInput, "p2")];
    assert FindIndex(ps, "p1") == 0;
    assert HasId(ps, "p1");
    var a3 := SetActiveProfile(a2, {}, "p1");
    assert a3.app.registry.profiles[1].id == "p2";
    assert FirstWithId(a3.app.registry.profiles, "p2", 1);
    assert HasId(a3.app.registry.profiles, "p2");
    ActivateThenCurrent(a3.app, {}, "p2");
  }
}
