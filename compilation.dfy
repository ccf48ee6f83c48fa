/**
 * The record both project importers produce, one per compilation of a source
 * file, and the path utilities they call but whose code is not modelled.
 */
module Compilation {
  import opened Wrappers
  import opened Platform

  /**
   * One compilation unit. `platformType` is None where the importer leaves
   * the field at the value a default-constructed FileSettings holds.
   */
  datatype FileSettings = FileSettings(
    filename: string,
    defines: string,
    undefs: set<string>,
    includePaths: seq<string>,
    platformType: Option<PlatformType>)

  /**
   * Path::fromNativeSeparators, Path::simplifyPath and Path::getPathFromFilename,
   * taken as given functions.
   */
  datatype PathHelpers = PathHelpers(
    fromNativeSeparators: string -> string,
    simplifyPath: string -> string,
    getPathFromFilename: string -> string)
}
