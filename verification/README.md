# OctoFlip profile switching, modelled in Dafny

OctoFlip is a desktop utility that stores named git identity profiles and switches
the machine's global git identity with one action. This project models its core.
The core has two pieces and the main-process handlers that join them:

- **Profile registry** (`ProfileStore`, `profile_store.dfy`). The persisted record
  `{ profiles, activeProfileId }` is a `State` value: an ordered `seq<Profile>` and
  an `Option<string>` pointer. Each `ProfileStore` method is a pure state transition:
  `getProfiles`, `getProfile` (first match by id), `createProfile` (append),
  `updateProfile` (replace the first match, or throw "Profile not found"),
  `deleteProfile` (filter, and clear the pointer if it named the id),
  `getActiveProfileId`, and `setActiveProfileId` (set the pointer, recompute every
  `isActive`).
- **Identity applier** (`GitManager`, `git_manager.dfy`). The global git configuration
  is a `map<string, string>`. `setGlobalConfig`, `unsetGlobalConfig` and
  `getGlobalConfig` are transitions on it. `setProfile` composes them. Whether a
  `git config --global` run fails is an input: `failing` is the set of keys whose
  write fails on this run.
- **Handlers** (`Ipc`, `ipc.dfy`). The six `ipcMain.handle` bodies work on
  `App(registry, config)` and return a `Reply` with the next state and a
  `Result`. A thrown error becomes `Failure`. `set-active-profile` looks the profile
  up, applies its identity, and only then moves the pointer. So the registry never
  marks a profile active after applying its identity failed. `Step` dispatches any
  request. `StepKeepsWellformed` proves that every request keeps ids unique and
  keeps the pointer resolving.

Shared types (`types.dfy`): `Profile`, `ProfileCreate` (a profile without `id` and
`isActive`), and the `Error` values `NotFound` and `GitConfigFailed(key)`.
`wrappers.dfy` holds `Option` and `Result`.

Behaviours kept as the code has them:

- `updateProfile` stores the caller's `isActive` verbatim, so it can put the flags
  out of step with the pointer (`UpdateCanDesyncFlags`).
- `deleteProfile` does not recompute flags. If they were in step before, they stay
  in step (`DeleteKeepsFlags`).
- `setActiveProfileId` accepts an id nobody carries. No record is then active.
- `sshKeyPath` is tested for truthiness, so `''` (the form's default) behaves like no
  key path (`EmptyKeyPathIsAbsent`).
- `get-current-profile` tests `id ?`, so an empty-string pointer reads as null.
- `unsetGlobalConfig` swallows every failure of its git run, not only "key not set".
  If that run fails, `core.sshCommand` keeps its old value and activation still
  succeeds. The contracts about the override being absent therefore assume that
  removing it does not fail.
- A failed `core.sshCommand` set propagates like a failed name or email set, and it
  stops activation.

## Model

| member | source | states |
|---|---|---|
| ProfileStore.FindIndex | src/main/lib/profile-store.ts:43-46 | -1 exactly when no record has the id; otherwise the first position carrying it |
| ProfileStore.GetProfiles | src/main/lib/profile-store.ts:22-24 | every stored record in stored order with nothing filtered; an id is listed exactly when getProfile finds it |
| ProfileStore.GetActiveProfileId | src/main/lib/profile-store.ts:63-65 | the stored active id; when the flags are in step, a record is flagged active exactly when it carries that id |
| ProfileStore.GetProfile | src/main/lib/profile-store.ts:26-28 | none exactly when the id is absent; otherwise the first record with that id |
| ProfileStore.GetProfileUnique | src/main/lib/profile-store.ts:26-28 | with unique ids, lookup returns p exactly when p is stored and carries the id |
| ProfileStore.NewProfile | src/main/lib/profile-store.ts:32-36 | the new record has the fresh id, isActive false, and the input's four fields |
| ProfileStore.CreateProfile | src/main/lib/profile-store.ts:30-39 | appends exactly one record; earlier records and the pointer are unchanged; returns the appended record |
| ProfileStore.GetAfterCreate | src/main/lib/profile-store.ts:30-39 | the created record is what lookup by the fresh id returns |
| ProfileStore.CreateMany | src/main/lib/profile-store.ts:30-39 | a run of creations keeps the old records as a prefix and appends one record per input, in order |
| ProfileStore.CreateManyUnique | src/main/lib/profile-store.ts:30-39 | a run of creations with distinct fresh ids keeps ids unique |
| ProfileStore.UpdateProfile | src/main/lib/profile-store.ts:41-50 | fails with NotFound exactly when the id is absent; otherwise replaces only the first match with the supplied record, keeps the length and the pointer, and returns the record |
| ProfileStore.GetAfterUpdate | src/main/lib/profile-store.ts:41-50 | after a successful update, lookup returns the supplied record |
| ProfileStore.Without | src/main/lib/profile-store.ts:53-57 | no survivor carries the id, and the result is never longer than the input |
| ProfileStore.WithoutCounts | src/main/lib/profile-store.ts:53-57 | every copy of a record carrying the id is dropped, and every other record keeps its multiplicity |
| ProfileStore.WithoutConcat | src/main/lib/profile-store.ts:53-57 | filtering distributes over concatenation, so survivors keep their relative order |
| ProfileStore.WithoutSingle | src/main/lib/profile-store.ts:56 | a single record survives exactly when its id differs |
| ProfileStore.WithoutAbsent | src/main/lib/profile-store.ts:53-57 | filtering out an id nobody carries leaves the list unchanged |
| ProfileStore.WithoutSubset | src/main/lib/profile-store.ts:56 | every survivor was stored before and does not carry the id |
| ProfileStore.WithoutUnique | src/main/lib/profile-store.ts:53-57 | filtering keeps ids unique |
| ProfileStore.DeleteProfile | src/main/lib/profile-store.ts:52-61 | removes every record with the id and keeps every other; clears the pointer exactly when it named the id |
| ProfileStore.GetAfterDelete | src/main/lib/profile-store.ts:52-61 | after deletion, lookup of the id finds nothing |
| ProfileStore.DeleteIdempotent | src/main/lib/profile-store.ts:52-61 | deleting twice equals deleting once |
| ProfileStore.DeleteAbsent | src/main/lib/profile-store.ts:53-57 | deleting an absent id leaves the list unchanged |
| ProfileStore.DeleteOnlyActiveLeavesNone | src/main/lib/profile-store.ts:52-61 | if every active record carries the deleted id, no record stays active, even when the flags were out of step |
| ProfileStore.DeleteActiveClears | src/main/lib/profile-store.ts:58-60 | deleting the active profile clears the pointer, and no record stays active |
| ProfileStore.MarkActive | src/main/lib/profile-store.ts:70-73 | same length; every record is kept apart from its flag, and a record is flagged active exactly when the argument is its id |
| ProfileStore.SetActiveProfileId | src/main/lib/profile-store.ts:67-75 | the pointer becomes the argument; order, length and all other fields are kept; every flag agrees with the new pointer |
| ProfileStore.SetActiveIdempotent | src/main/lib/profile-store.ts:67-75 | setting the same pointer twice equals setting it once |
| ProfileStore.GetAfterSetActive | src/main/lib/profile-store.ts:63-75 | getActiveProfileId returns the pointer just set |
| ProfileStore.SetActiveExactlyOne | src/main/lib/profile-store.ts:67-75 | with unique ids, pointing at a stored id flags exactly one record, the one with that id |
| ProfileStore.SetActiveNoneActive | src/main/lib/profile-store.ts:67-75 | pointing at null or at an absent id leaves no record active |
| ProfileStore.AtMostOneActive | src/main/lib/profile-store.ts:67-75 | with unique ids and flags in step, at most one record is active |
| ProfileStore.CreateKeepsUniqueIds | src/main/lib/profile-store.ts:30-39 | creation with a fresh id keeps ids unique |
| ProfileStore.UpdateKeepsUniqueIds | src/main/lib/profile-store.ts:41-50 | update keeps ids unique |
| ProfileStore.DeleteKeepsUniqueIds | src/main/lib/profile-store.ts:52-61 | deletion keeps ids unique |
| ProfileStore.SetActiveKeepsUniqueIds | src/main/lib/profile-store.ts:67-75 | recomputing flags keeps ids unique |
| ProfileStore.CreateKeepsFlags | src/main/lib/profile-store.ts:30-39 | creation keeps flags in step unless the pointer already names the fresh id |
| ProfileStore.DeleteKeepsFlags | src/main/lib/profile-store.ts:52-61 | deletion keeps flags in step without recomputing them |
| ProfileStore.UpdateKeepsFlags | src/main/lib/profile-store.ts:41-50 | update keeps flags in step when the supplied flag matches the pointer |
| ProfileStore.UpdateCanDesyncFlags | src/main/lib/profile-store.ts:47 | some update stores a flag that disagrees with the pointer |
| GitManager.SetGlobalConfig | src/main/lib/git-manager.ts:7-14 | fails with the key's error exactly when the run fails; on success the key holds the value and every other key is kept |
| GitManager.UnsetGlobalConfig | src/main/lib/git-manager.ts:16-23 | never reports failure; the key is gone when the run succeeds; a missing key or a failed run leaves the configuration unchanged; other keys are kept |
| GitManager.TrimStart | src/main/lib/git-manager.ts:28 | returns a suffix of the input; only whitespace was dropped; the result does not start with whitespace |
| GitManager.TrimEnd | src/main/lib/git-manager.ts:28 | returns a prefix of the input; only whitespace was dropped; the result does not end with whitespace |
| GitManager.Trim | src/main/lib/git-manager.ts:28 | returns a slice of the input with whitespace only outside it and none at its ends |
| GitManager.TrimOfClean | src/main/lib/git-manager.ts:28 | trimming a string with no surrounding whitespace changes nothing |
| GitManager.TrimIdempotent | src/main/lib/git-manager.ts:28 | trimming twice equals trimming once |
| GitManager.GetGlobalConfig | src/main/lib/git-manager.ts:25-32 | null exactly when the key is absent; otherwise the stored value with only surrounding whitespace cut away |
| GitManager.GetAfterSet | src/main/lib/git-manager.ts:7-32 | reading back a successfully written value without surrounding whitespace returns that value |
| GitManager.GetAfterUnset | src/main/lib/git-manager.ts:16-32 | reading back a successfully removed key returns null |
| GitManager.SshCommand | src/main/lib/git-manager.ts:42 | the override starts with `ssh -i `, holds the path right after it, and ends with ` -o IdentitiesOnly=yes` |
| GitManager.SshCommandRoundTrip | src/main/lib/git-manager.ts:42 | KeyPathOf recovers the path from the override, and only the override built from that path yields it |
| GitManager.Truthy | src/main/lib/git-manager.ts:38 | a key path counts as given exactly when it is present and not the empty string |
| GitManager.SetProfile | src/main/lib/git-manager.ts:34-51 | which set fails decides the error; a name failure leaves the configuration unchanged; an email failure leaves only the new name; an override failure leaves the new name and email; success always sets name and email, and sets the override or removes it (a swallowed removal failure keeps the old one); keys other than the three are kept |
| GitManager.SetProfileIdempotent | src/main/lib/git-manager.ts:34-51 | applying the same identity twice gives the same configuration as once |
| GitManager.EmptyKeyPathIsAbsent | src/main/lib/git-manager.ts:38 | an empty key path behaves exactly like no key path |
| GitManager.SetProfileOverrideNamesKey | src/main/lib/git-manager.ts:38-43 | after a successful apply with a path, the override names that path and ends with the IdentitiesOnly=yes flag |
| Ipc.GetProfilesHandler | src/main/index.ts:59-61 | changes nothing; the reply is the stored list itself, in stored order |
| Ipc.CreateProfileHandler | src/main/index.ts:63-65 | the registry is createProfile's result: the new record appended at the end, earlier records and the active id kept; the configuration is untouched; the returned record is found under the fresh id and carries the input's fields |
| Ipc.UpdateProfileHandler | src/main/index.ts:67-69 | NotFound propagates with state unchanged; on success the registry is updateProfile's result: only the first match replaced, length and other positions kept, and lookup returns the supplied record; active id and configuration are kept |
| Ipc.DeleteProfileHandler | src/main/index.ts:71-73 | returns nothing and leaves the configuration alone; the registry is deleteProfile's result: records with the id removed, every other kept, the active id cleared if it named the id and otherwise unchanged |
| Ipc.SetActiveProfile | src/main/index.ts:75-81 | unknown id: nothing changes; known id: the configuration is exactly what setProfile leaves, including its partial writes on failure (no rollback), activation succeeds exactly when setProfile does not throw, and a failure carries setProfile's error; failure: the registry is unchanged; success: the registry is setActiveProfileId's result for the id, and the configuration carries the profile's name, email and SSH override (unless its removal failed silently); only the three identity keys change |
| Ipc.GetCurrentProfile | src/main/index.ts:83-86 | changes nothing; null for a null or empty pointer or an absent id; otherwise the first record with the pointer's id |
| Ipc.ActivateThenCurrent | src/main/index.ts:75-86 | after a successful activation of a stored non-empty id, the current profile is that record, flagged active |
| Ipc.FailedActivationKeepsCurrent | src/main/index.ts:75-86 | a failed activation leaves the current profile as it was |
| Ipc.PointerMovesOnlyWithIdentity | src/main/index.ts:75-81 | whenever activation moves the pointer, the id is stored and its identity is in the configuration |
| Ipc.StepKeepsWellformed | src/main/index.ts:59-86 | every request keeps ids unique and keeps the pointer null or naming a stored profile |
| Ipc.StepKeepsFlags | src/main/index.ts:59-86 | every request except an update with a mismatched flag keeps flags in step with the pointer |
| Ipc.SwitchScenario | src/main/index.ts:59-86 | create a keyed and an unkeyed profile and activate each in turn: the override follows, and the current profile ends as the second |

## Left out

- Persistence through `electron-store`: the store is an in-memory value and each method is one atomic step. The two writes in `deleteProfile` and `setActiveProfileId` are not atomic in the program, and a storage error is not modelled.
- Shell execution through `child_process.exec`: a set stores its value verbatim. The command line's quoting is not modelled, so values holding `"`, `$` or backquotes are not modelled either. Failure is the `failing` input.
- `randomUUID()`: the caller supplies the fresh id, and creation requires that no stored record carries it.
- Async/await and interleaving of concurrent handler calls: the model is sequential.
- Case-insensitive git keys: configuration keys are exact strings that stand for git's canonical key names. git treats section and variable names case-insensitively, so a key spelt `core.sshcommand` is the same entry as `core.sshCommand`; the map does not fold case.
- Extra fields in a `create-profile` argument: at run time the renderer's object is spread in whole, and only the four typed fields are modelled.
- GitManager.GetGlobalConfig: a git run that fails for a reason other than a missing key also yields null. That case is not modelled.
- GitManager.Trim: follows ECMAScript's whitespace and line-terminator code points. git's own output formatting, such as multi-valued keys, is not modelled.
- Logging to the console, the `ping` handler, window creation and app lifecycle (src/main/index.ts:8-54, 88-104).
- Preload bridging (src/preload/index.ts, src/preload/index.d.ts): it is plumbing.
- The React UI (src/renderer/src/App.tsx, ProfileForm.tsx, ProfileCard.tsx). The one fact kept is that the form submits `sshKeyPath: ''` by default (src/renderer/src/components/ProfileForm.tsx:14), covered by `EmptyKeyPathIsAbsent`.
- Build configuration (electron.vite.config.ts).
