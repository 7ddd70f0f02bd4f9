/** Absolute paths, as the gate, the overlay targets and the inode table compare
    them. */
module Paths {

  /** A path as its components; `starts_with` is then prefix. */
  type Path = seq<string>

  /** `path` is, or lies under, one of `ps`. */
  predicate Covered(ps: seq<Path>, path: Path)
  {
    exists i :: 0 <= i < |ps| && ps[i] <= path
  }
}
