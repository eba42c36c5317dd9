/** The shared record types of the application (src/shared/types.ts). */
module Types {
  import opened Wrappers

  /** One stored identity profile. `sshKeyPath` is optional; `isActive` is a
      denormalised copy of "this profile is the registry's active one". */
  datatype Profile = Profile(
    id: string,
    name: string,
    gitName: string,
    gitEmail: string,
    sshKeyPath: Option<string>,
    isActive: bool)

  /** The input of profile creation: a Profile without `id` and `isActive`,
      so a caller can choose neither. */
  datatype ProfileCreate = ProfileCreate(
    name: string,
    gitName: string,
    gitEmail: string,
    sshKeyPath: Option<string>)

  /** The errors the main process can raise to the renderer. */
  datatype Error =
    | NotFound                      // updateProfile: no stored profile has the id
    | GitConfigFailed(key: string)  // a `git config --global <key> <value>` run failed

  /** The user-editable fields of a profile, i.e. what creation takes as input. */
  function Fields(p: Profile): ProfileCreate
  {
    ProfileCreate(p.name, p.gitName, p.gitEmail, p.sshKeyPath)
  }
}
