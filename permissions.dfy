/** Permission checks shared by the administration command and the tab completer. */
module Permissions {
  /** The permission nodes the administration command and its tab completer consult
      (`commandblocker.command`, `.add`, `.remove`, `.list`, `.reload`, `.admin`; the
      older package uses the same nodes under `commandblock.`). */
  datatype Perm = UseCommand | AddPerm | RemovePerm | ListPerm | ReloadPerm | Admin

  /** `hasPermission`: the specific node, or the admin node. */
  predicate HasPermission(granted: set<Perm>, p: Perm)
  {
    p in granted || Admin in granted
  }

  /** `hasBasePermission`: the command node, or the admin node. */
  predicate HasBasePermission(granted: set<Perm>)
  {
    HasPermission(granted, UseCommand)
  }

  /** The admin node satisfies every check. */
  lemma AdminGrantsEverything(granted: set<Perm>, p: Perm)
    requires Admin in granted
    ensures HasPermission(granted, p) && HasBasePermission(granted)
  {
  }
}
