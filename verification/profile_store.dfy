/** The profile registry (src/main/lib/profile-store.ts): the persisted record
    `{ profiles, activeProfileId }` and one pure state transition per
    `ProfileStore` method. Each method is one atomic step; the store's own
    persistence is an in-memory value. */
module ProfileStore {
  import opened Wrappers
  import opened Types

  /** The persisted schema: the ordered profile list and the nullable active id. */
  datatype State = State(profiles: seq<Profile>, activeProfileId: Option<string>)

  /** The store's defaults on first use: no profiles, no active id. */
  const Initial: State := State([], None)

  // ---------------------------------------------------------------------------
  // Predicates over the profile list

  /** Some stored record carries `id`. */
  predicate HasId(ps: seq<Profile>, id: string)
  {
    exists i :: 0 <= i < |ps| && ps[i].id == id
  }

  /** Position `i` holds the first record carrying `id`. */
  predicate FirstWithId(ps: seq<Profile>, id: string, i: int)
  {
    0 <= i < |ps| && ps[i].id == id && forall j :: 0 <= j < i ==> ps[j].id != id
  }

  /** No two records share an id. */
  predicate UniqueIds(ps: seq<Profile>)
  {
    forall i, j :: 0 <= i < j < |ps| ==> ps[i].id != ps[j].id
  }

  /** Every `isActive` flag agrees with the active pointer. */
  predicate FlagsMatch(s: State)
  {
    forall i :: 0 <= i < |s.profiles| ==>
      (s.profiles[i].isActive <==> s.activeProfileId == Some(s.profiles[i].id))
  }

  /** No record is flagged active. */
  predicate NoneActive(ps: seq<Profile>)
  {
    forall i :: 0 <= i < |ps| ==> !ps[i].isActive
  }

  /** The active pointer is null or names a stored record. */
  predicate PointerResolves(s: State)
  {
    s.activeProfileId.Some? ==> HasId(s.profiles, s.activeProfileId.value)
  }

  /** Two records agree on everything but the `isActive` flag. */
  predicate SameButFlag(p: Profile, q: Profile)
  {
    p.(isActive := false) == q.(isActive := false)
  }

  lemma HasIdCons(ps: seq<Profile>, id: string)
    requires |ps| > 0
    ensures HasId(ps, id) <==> ps[0].id == id || HasId(ps[1..], id)
  {
    if HasId(ps, id) && ps[0].id != id {
      var i :| 0 <= i < |ps| && ps[i].id == id;
      assert ps[1..][i - 1].id == id;
    }
    if HasId(ps[1..], id) {
      var i :| 0 <= i < |ps[1..]| && ps[1..][i].id == id;
      assert ps[i + 1].id == id;
    }
  }

  lemma HasIdAppend(ps: seq<Profile>, p: Profile, id: string)
    ensures HasId(ps + [p], id) <==> HasId(ps, id) || p.id == id
  {
    if HasId(ps, id) {
      var i :| 0 <= i < |ps| && ps[i].id == id;
      assert (ps + [p])[i].id == id;
    }
    assert (ps + [p])[|ps|] == p;
  }

  // ---------------------------------------------------------------------------
  // Lookup

  /** `Array.prototype.findIndex` by id: the first position holding `id`, or -1. */
  function FindIndex(ps: seq<Profile>, id: string): (r: int)
    ensures -1 <= r < |ps|
    ensures r == -1 <==> !HasId(ps, id)
    ensures r != -1 ==> FirstWithId(ps, id, r)
  {
    if |ps| == 0 then -1
    else if ps[0].id == id then 0
    else
      HasIdCons(ps, id);
      var k := FindIndex(ps[1..], id);
      if k == -1 then -1 else k + 1
  }

  /** `getProfiles`: every stored record, in stored order, with nothing filtered;
      an id is listed exactly when `getProfile` finds it. */
  function GetProfiles(s: State): (r: seq<Profile>)
    ensures |r| == |s.profiles| && forall i :: 0 <= i < |r| ==> r[i] == s.profiles[i]
    ensures forall id :: HasId(r, id) <==> GetProfile(s, id).Some?
  {
    s.profiles
  }

  /** `getProfile`: the first stored record carrying `id`, or none. */
  function GetProfile(s: State, id: string): (r: Option<Profile>)
    ensures r.None? <==> !HasId(s.profiles, id)
    ensures r.Some? ==> exists i :: FirstWithId(s.profiles, id, i) && s.profiles[i] == r.value
  {
    var k := FindIndex(s.profiles, id);
    if k == -1 then None else Some(s.profiles[k])
  }

  /** `getActiveProfileId`: the stored pointer; when the flags are in step it
      names exactly the records flagged active. */
  function GetActiveProfileId(s: State): (r: Option<string>)
    ensures r == s.activeProfileId
    ensures FlagsMatch(s) ==> forall i :: 0 <= i < |s.profiles| ==> (s.profiles[i].isActive <==> r == Some(s.profiles[i].id))
  {
    s.activeProfileId
  }

  // ---------------------------------------------------------------------------
  // Mutations

  /** The record `createProfile` builds: the input's fields, then the fresh id
      and `isActive = false`, which override anything spread from the input. */
  function NewProfile(input: ProfileCreate, freshId: string): (p: Profile)
    ensures p.id == freshId && !p.isActive && Fields(p) == input
  {
    Profile(freshId, input.name, input.gitName, input.gitEmail, input.sshKeyPath, false)
  }

  /** `createProfile`, with `randomUUID()` replaced by the caller's `freshId`. */
  function CreateProfile(s: State, input: ProfileCreate, freshId: string): (r: (State, Profile))
    requires !HasId(s.profiles, freshId)
    ensures |r.0.profiles| == |s.profiles| + 1
    ensures r.0.profiles[..|s.profiles|] == s.profiles
    ensures r.0.profiles[|s.profiles|] == r.1
    ensures r.0.activeProfileId == s.activeProfileId
    ensures r.1.id == freshId && !r.1.isActive && Fields(r.1) == input
  {
    var p := NewProfile(input, freshId);
    (State(s.profiles + [p], s.activeProfileId), p)
  }

  /** `updateProfile`: replace the first record with the same id by the supplied
      record, verbatim (its `isActive` included), or throw "Profile not found". */
  function UpdateProfile(s: State, p: Profile): (r: Result<(State, Profile), Error>)
    ensures r.Failure? <==> !HasId(s.profiles, p.id)
    ensures r.Failure? ==> r.error == NotFound
    ensures r.Success? ==>
      && r.value.1 == p
      && r.value.0.activeProfileId == s.activeProfileId
      && |r.value.0.profiles| == |s.profiles|
      && exists i :: FirstWithId(s.profiles, p.id, i) && r.value.0.profiles == s.profiles[i := p]
  {
    var index := FindIndex(s.profiles, p.id);
    if index == -1 then Failure(NotFound)
    else Success((State(s.profiles[index := p], s.activeProfileId), p))
  }

  /** `profiles.filter((p) => p.id !== id)`. */
  function Without(ps: seq<Profile>, id: string): (r: seq<Profile>)
    ensures |r| <= |ps|
    ensures forall i :: 0 <= i < |r| ==> r[i].id != id
  {
    if |ps| == 0 then []
    else if ps[0].id == id then Without(ps[1..], id)
    else [ps[0]] + Without(ps[1..], id)
  }

  /** The filter drops every copy of a record carrying `id` and keeps every copy
      of any other record. */
  lemma {:induction false} WithoutCounts(ps: seq<Profile>, id: string)
    ensures forall q :: multiset(Without(ps, id))[q] == if q.id == id then 0 else multiset(ps)[q]
  {
    if |ps| > 0 {
      WithoutCounts(ps[1..], id);
      assert ps == [ps[0]] + ps[1..];
    }
  }

  /** `deleteProfile`: drop every record with `id`, and clear the pointer when it
      named `id`. The flags of the remaining records are not recomputed. */
  function DeleteProfile(s: State, id: string): (r: State)
    ensures !HasId(r.profiles, id)
    ensures forall q :: multiset(r.profiles)[q] == if q.id == id then 0 else multiset(s.profiles)[q]
    ensures s.activeProfileId == Some(id) ==> r.activeProfileId == None
    ensures s.activeProfileId != Some(id) ==> r.activeProfileId == s.activeProfileId
  {
    WithoutCounts(s.profiles, id);
    State(Without(s.profiles, id),
          if s.activeProfileId == Some(id) then None else s.activeProfileId)
  }

  /** `profiles.map((p) => ({ ...p, isActive: p.id === id }))`. */
  function MarkActive(ps: seq<Profile>, x: Option<string>): (r: seq<Profile>)
    ensures |r| == |ps|
    ensures forall i :: 0 <= i < |r| ==> SameButFlag(r[i], ps[i])
    ensures forall i :: 0 <= i < |r| ==> (r[i].isActive <==> x == Some(ps[i].id))
  {
    seq(|ps|, i requires 0 <= i < |ps| => ps[i].(isActive := x == Some(ps[i].id)))
  }

  /** `setActiveProfileId`: set the pointer (any id, or null) and recompute every flag. */
  function SetActiveProfileId(s: State, x: Option<string>): (r: State)
    ensures r.activeProfileId == x
    ensures |r.profiles| == |s.profiles|
    ensures forall i :: 0 <= i < |r.profiles| ==> SameButFlag(r.profiles[i], s.profiles[i])
    ensures FlagsMatch(r)
  {
    State(MarkActive(s.profiles, x), x)
  }

  // ---------------------------------------------------------------------------
  // Properties of the registry operations

  /** Lookup by id agrees with membership once ids are unique. */
  lemma GetProfileUnique(s: State, id: string, p: Profile)
    requires UniqueIds(s.profiles)
    ensures GetProfile(s, id) == Some(p) <==> p in s.profiles && p.id == id
  {
    if p in s.profiles && p.id == id {
      var i :| 0 <= i < |s.profiles| && s.profiles[i] == p;
      var k := FindIndex(s.profiles, id);
      assert k == i;
    }
  }

  /** The record `createProfile` returns is found under the fresh id. */
  lemma GetAfterCreate(s: State, input: ProfileCreate, freshId: string)
    requires !HasId(s.profiles, freshId)
    ensures GetProfile(CreateProfile(s, input, freshId).0, freshId) == Some(CreateProfile(s, input, freshId).1)
  {
    var r := CreateProfile(s, input, freshId);
    var ps := r.0.profiles;
    assert ps[|s.profiles|].id == freshId;
    var k := FindIndex(ps, freshId);
    assert forall j :: 0 <= j < |s.profiles| ==> ps[j] == s.profiles[j];
    assert FirstWithId(ps, freshId, |s.profiles|);
  }

  /** After a successful update the supplied record is what lookup returns. */
  lemma GetAfterUpdate(s: State, p: Profile)
    requires UpdateProfile(s, p).Success?
    ensures GetProfile(UpdateProfile(s, p).value.0, p.id) == Some(p)
  {
    var i :| FirstWithId(s.profiles, p.id, i) && UpdateProfile(s, p).value.0.profiles == s.profiles[i := p];
    var ps := s.profiles[i := p];
    assert FirstWithId(ps, p.id, i);
    var k := FindIndex(ps, p.id);
    assert k == i;
  }

  /** After deleting `id`, lookup of `id` finds nothing. */
  lemma GetAfterDelete(s: State, id: string)
    ensures GetProfile(DeleteProfile(s, id), id) == None
  {
  }

  /** Filtering distributes over concatenation, so the survivors keep their relative order. */
  lemma {:induction false} WithoutConcat(a: seq<Profile>, b: seq<Profile>, id: string)
    ensures Without(a + b, id) == Without(a, id) + Without(b, id)
  {
    if |a| == 0 {
      assert a + b == b;
    } else {
      assert (a + b)[0] == a[0];
      assert (a + b)[1..] == a[1..] + b;
      WithoutConcat(a[1..], b, id);
    }
  }

  /** Filtering a one-record list keeps it exactly when its id differs. */
  lemma WithoutSingle(p: Profile, id: string)
    ensures Without([p], id) == if p.id == id then [] else [p]
  {
    assert [p][1..] == [];
  }

  /** Filtering out an id nobody carries changes nothing. */
  lemma {:induction false} WithoutAbsent(ps: seq<Profile>, id: string)
    requires !HasId(ps, id)
    ensures Without(ps, id) == ps
  {
    if |ps| > 0 {
      HasIdCons(ps, id);
      WithoutAbsent(ps[1..], id);
      assert ps == [ps[0]] + ps[1..];
    }
  }

  /** Every survivor of the filter was already in the list. */
  lemma WithoutSubset(ps: seq<Profile>, id: string, q: Profile)
    requires q in Without(ps, id)
    ensures q in ps && q.id != id
  {
    WithoutCounts(ps, id);
    assert multiset(Without(ps, id))[q] > 0;
  }

  /** Putting a record with an id the rest lacks in front keeps ids unique. */
  lemma UniqueCons(p: Profile, rest: seq<Profile>)
    requires UniqueIds(rest)
    requires forall k :: 0 <= k < |rest| ==> rest[k].id != p.id
    ensures UniqueIds([p] + rest)
  {
    var r := [p] + rest;
    forall i, j | 0 <= i < j < |r|
      ensures r[i].id != r[j].id
    {
      assert r[j] == rest[j - 1];
      if i > 0 {
        assert r[i] == rest[i - 1];
      }
    }
  }

  /** Filtering keeps ids unique. */
  lemma {:induction false} WithoutUnique(ps: seq<Profile>, id: string)
    requires UniqueIds(ps)
    ensures UniqueIds(Without(ps, id))
  {
    if |ps| > 0 {
      var tail := ps[1..];
      assert UniqueIds(tail);
      WithoutUnique(tail, id);
      var rest := Without(tail, id);
      if ps[0].id != id {
        forall k | 0 <= k < |rest|
          ensures rest[k].id != ps[0].id
        {
          WithoutSubset(tail, id, rest[k]);
          var m :| 0 <= m < |tail| && tail[m] == rest[k];
          assert ps[m + 1] == rest[k];
        }
        UniqueCons(ps[0], rest);
      }
    }
  }

  /** Deleting the same id twice is the same as deleting it once. */
  lemma DeleteIdempotent(s: State, id: string)
    ensures DeleteProfile(DeleteProfile(s, id), id) == DeleteProfile(s, id)
  {
    var once := DeleteProfile(s, id);
    WithoutAbsent(once.profiles, id);
  }

  /** Deleting an id nobody carries leaves the list as it was. */
  lemma DeleteAbsent(s: State, id: string)
    requires !HasId(s.profiles, id)
    ensures DeleteProfile(s, id).profiles == s.profiles
  {
    WithoutAbsent(s.profiles, id);
  }

  /** Recomputing the flags twice for the same pointer is the same as once. */
  lemma SetActiveIdempotent(s: State, x: Option<string>)
    ensures SetActiveProfileId(SetActiveProfileId(s, x), x) == SetActiveProfileId(s, x)
  {
    var once := SetActiveProfileId(s, x);
    var twice := SetActiveProfileId(once, x);
    assert twice.profiles == once.profiles;
  }

  /** The pointer reads back as it was set. */
  lemma GetAfterSetActive(s: State, x: Option<string>)
    ensures GetActiveProfileId(SetActiveProfileId(s, x)) == x
  {
  }

  /** Pointing at a stored id (with unique ids) flags exactly that one record. */
  lemma SetActiveExactlyOne(s: State, x: string)
    requires UniqueIds(s.profiles) && HasId(s.profiles, x)
    ensures exists i ::
      && 0 <= i < |s.profiles|
      && SetActiveProfileId(s, Some(x)).profiles[i].isActive
      && SetActiveProfileId(s, Some(x)).profiles[i].id == x
      && (forall j :: 0 <= j < |s.profiles| && SetActiveProfileId(s, Some(x)).profiles[j].isActive ==> j == i)
  {
    var r := SetActiveProfileId(s, Some(x));
    var i :| 0 <= i < |s.profiles| && s.profiles[i].id == x;
    assert SameButFlag(r.profiles[i], s.profiles[i]);
    forall j | 0 <= j < |s.profiles| && r.profiles[j].isActive
      ensures j == i
    {
      assert SameButFlag(r.profiles[j], s.profiles[j]);
    }
  }

  /** Pointing at null or at an id nobody carries leaves no record flagged. */
  lemma SetActiveNoneActive(s: State, x: Option<string>)
    requires x.None? || !HasId(s.profiles, x.value)
    ensures NoneActive(SetActiveProfileId(s, x).profiles)
  {
    var r := SetActiveProfileId(s, x);
    forall i | 0 <= i < |r.profiles|
      ensures !r.profiles[i].isActive
    {
      assert SameButFlag(r.profiles[i], s.profiles[i]);
    }
  }

  /** With unique ids and consistent flags, at most one record is active. */
  lemma AtMostOneActive(s: State)
    requires UniqueIds(s.profiles) && FlagsMatch(s)
    ensures forall i, j ::
      (0 <= i < |s.profiles| && 0 <= j < |s.profiles| && s.profiles[i].isActive && s.profiles[j].isActive) ==> i == j
  {
  }

  // ---------------------------------------------------------------------------
  // Unique ids are kept by every operation

  lemma CreateKeepsUniqueIds(s: State, input: ProfileCreate, freshId: string)
    requires UniqueIds(s.profiles) && !HasId(s.profiles, freshId)
    ensures UniqueIds(CreateProfile(s, input, freshId).0.profiles)
  {
    var ps := CreateProfile(s, input, freshId).0.profiles;
    forall i, j | 0 <= i < j < |ps|
      ensures ps[i].id != ps[j].id
    {
      assert ps[i] == s.profiles[i];
      if j < |s.profiles| {
        assert ps[j] == s.profiles[j];
      }
    }
  }

  lemma UpdateKeepsUniqueIds(s: State, p: Profile)
    requires UniqueIds(s.profiles) && UpdateProfile(s, p).Success?
    ensures UniqueIds(UpdateProfile(s, p).value.0.profiles)
  {
  }

  lemma DeleteKeepsUniqueIds(s: State, id: string)
    requires UniqueIds(s.profiles)
    ensures UniqueIds(DeleteProfile(s, id).profiles)
  {
    WithoutUnique(s.profiles, id);
  }

  lemma SetActiveKeepsUniqueIds(s: State, x: Option<string>)
    requires UniqueIds(s.profiles)
    ensures UniqueIds(SetActiveProfileId(s, x).profiles)
  {
    var r := SetActiveProfileId(s, x);
    forall i, j | 0 <= i < j < |r.profiles|
      ensures r.profiles[i].id != r.profiles[j].id
    {
      assert SameButFlag(r.profiles[i], s.profiles[i]);
      assert SameButFlag(r.profiles[j], s.profiles[j]);
    }
  }

  // ---------------------------------------------------------------------------
  // Which operations keep the flags in step with the pointer

  /** Creation keeps the flags in step unless the pointer already dangles at the fresh id. */
  lemma CreateKeepsFlags(s: State, input: ProfileCreate, freshId: string)
    requires FlagsMatch(s) && !HasId(s.profiles, freshId) && s.activeProfileId != Some(freshId)
    ensures FlagsMatch(CreateProfile(s, input, freshId).0)
  {
    var r := CreateProfile(s, input, freshId).0;
    forall i | 0 <= i < |r.profiles|
      ensures r.profiles[i].isActive <==> r.activeProfileId == Some(r.profiles[i].id)
    {
      if i < |s.profiles| {
        assert r.profiles[i] == s.profiles[i];
      }
    }
  }

  /** Deletion keeps the flags in step although it does not recompute them. */
  lemma DeleteKeepsFlags(s: State, id: string)
    requires FlagsMatch(s)
    ensures FlagsMatch(DeleteProfile(s, id))
  {
    var r := DeleteProfile(s, id);
    forall i | 0 <= i < |r.profiles|
      ensures r.profiles[i].isActive <==> r.activeProfileId == Some(r.profiles[i].id)
    {
      var q := r.profiles[i];
      assert q in r.profiles;
      WithoutSubset(s.profiles, id, q);
      var k :| 0 <= k < |s.profiles| && s.profiles[k] == q;
    }
  }

  /** When every active record carries the deleted id, no record stays active,
      whether or not the flags were in step with the pointer. */
  lemma DeleteOnlyActiveLeavesNone(s: State, id: string)
    requires forall i :: 0 <= i < |s.profiles| && s.profiles[i].isActive ==> s.profiles[i].id == id
    ensures NoneActive(DeleteProfile(s, id).profiles)
  {
    var r := DeleteProfile(s, id).profiles;
    forall i | 0 <= i < |r|
      ensures !r[i].isActive
    {
      WithoutSubset(s.profiles, id, r[i]);
    }
  }

  /** Deleting the active profile clears the pointer and leaves no record active. */
  lemma DeleteActiveClears(s: State, id: string)
    requires FlagsMatch(s) && s.activeProfileId == Some(id)
    ensures DeleteProfile(s, id).activeProfileId == None
    ensures NoneActive(DeleteProfile(s, id).profiles)
  {
    DeleteOnlyActiveLeavesNone(s, id);
  }

  /** An update keeps the flags in step when the supplied flag is the right one. */
  lemma UpdateKeepsFlags(s: State, p: Profile)
    requires FlagsMatch(s) && UpdateProfile(s, p).Success?
    requires p.isActive <==> s.activeProfileId == Some(p.id)
    ensures FlagsMatch(UpdateProfile(s, p).value.0)
  {
  }

  /** An update stores the caller's flag verbatim, so it can put the flags out of step. */
  lemma UpdateCanDesyncFlags()
    ensures exists s: State, p: Profile ::
      FlagsMatch(s) && UpdateProfile(s, p).Success? && !FlagsMatch(UpdateProfile(s, p).value.0)
  {
    var before := Profile("a", "Work", "Alice", "alice@example.com", None, true);
    var s := State([before], Some("a"));
    var p := before.(isActive := false);
    assert FlagsMatch(s);
    var r := UpdateProfile(s, p);
    assert FindIndex(s.profiles, "a") == 0;
    assert r.value.0.profiles[0] == p;
  }

  // ---------------------------------------------------------------------------
  // A run of creations

  /** The ids are pairwise distinct and none is already stored. */
  predicate FreshIds(ps: seq<Profile>, ids: seq<string>)
  {
    && (forall i, j :: 0 <= i < j < |ids| ==> ids[i] != ids[j])
    && (forall i :: 0 <= i < |ids| ==> !HasId(ps, ids[i]))
  }

  /** `createProfile` called once per input, in order, with the given fresh ids. */
  function CreateMany(s: State, inputs: seq<ProfileCreate>, ids: seq<string>): (r: State)
    requires |inputs| == |ids| && FreshIds(s.profiles, ids)
    ensures |r.profiles| == |s.profiles| + |ids|
    ensures r.profiles[..|s.profiles|] == s.profiles
    ensures forall i :: 0 <= i < |ids| ==> r.profiles[|s.profiles| + i] == NewProfile(inputs[i], ids[i])
    ensures r.activeProfileId == s.activeProfileId
    decreases |ids|
  {
    if |ids| == 0 then s
    else
      var s1 := CreateProfile(s, inputs[0], ids[0]).0;
      assert FreshIds(s1.profiles, ids[1..]) by {
        forall i | 0 <= i < |ids[1..]|
          ensures !HasId(s1.profiles, ids[1..][i])
        {
          HasIdAppend(s.profiles, NewProfile(inputs[0], ids[0]), ids[1..][i]);
        }
      }
      var r := CreateMany(s1, inputs[1..], ids[1..]);
      assert r.profiles[..|s1.profiles|] == s1.profiles;
      assert r.profiles[..|s.profiles|] == s1.profiles[..|s.profiles|];
      r
  }

  /** Any run of creations from unique ids with fresh, distinct ids keeps ids unique. */
  lemma {:induction false} CreateManyUnique(s: State, inputs: seq<ProfileCreate>, ids: seq<string>)
    requires |inputs| == |ids| && FreshIds(s.profiles, ids) && UniqueIds(s.profiles)
    ensures UniqueIds(CreateMany(s, inputs, ids).profiles)
  {
    var r := CreateMany(s, inputs, ids).profiles;
    var n := |s.profiles|;
    forall i, j | 0 <= i < j < |r|
      ensures r[i].id != r[j].id
    {
      if j < n {
        assert r[i] == s.profiles[i] && r[j] == s.profiles[j];
      } else if i < n {
        assert r[i] == s.profiles[i];
        assert r[j].id == ids[j - n];
      } else {
        assert r[i].id == ids[i - n] && r[j].id == ids[j - n];
      }
    }
  }
}
