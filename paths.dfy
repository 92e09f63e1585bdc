/**
 * Filesystem paths as strings. `PosixPath`'s normalisation (collapsing
 * repeated or trailing slashes, `.` components) is not modelled: paths are
 * compared as the strings they are built into.
 */
module Paths {
  type Path = string

  /** The filesystem root, `PosixPath("/")`. */
  const RootPath: Path := "/"

  /** `PosixPath.is_absolute()`. */
  predicate IsAbsolute(p: Path) { |p| > 0 && p[0] == '/' }

  /**
   * `PosixPath(dir).joinpath(name)` for an absolute `dir`, the only kind the
   * script joins onto: an absolute `name` replaces `dir`, an empty one leaves
   * it, otherwise one `/` separates the two.
   */
  function JoinPath(dir: Path, name: string): (p: Path)
    requires IsAbsolute(dir)
    ensures IsAbsolute(p)
    ensures !IsAbsolute(name) ==> |p| >= |dir| && p[..|dir|] == dir
    ensures name != [] && !IsAbsolute(name) ==> |p| > |dir| && |p| > |name| && p[|p| - |name|..] == name
  {
    if IsAbsolute(name) then name
    else if name == [] then dir
    else if dir[|dir| - 1] == '/' then dir + name
    else dir + "/" + name
  }
}
