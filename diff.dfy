/**
 The slice of a git diff that the entropy metric reads: per-file patches,
 their hunks, and the origin marker of every line in a hunk. The diff itself
 (which patches exist, in what order) is produced by the version-control
 library and is an input here.
 */
module Diff {

  /** A line's origin marker: '+' for an added line, '-' for a removed one;
      any other marker (' ' for context and the library's other markers) is
      neither. */
  type Origin = char

  datatype Hunk = Hunk(lines: seq<Origin>)

  /** One changed file. An empty path stands for a side that is absent, such
      as the old side of an added file or the new side of a deleted one. */
  datatype Patch = Patch(oldPath: string, newPath: string, hunks: seq<Hunk>)

  /** The origin markers of all lines of all hunks, hunk after hunk. */
  function AllLines(hunks: seq<Hunk>): (s: seq<Origin>)
    ensures hunks == [] ==> s == []
  {
    if hunks == [] then [] else AllLines(hunks[..|hunks| - 1]) + hunks[|hunks| - 1].lines
  }
}
