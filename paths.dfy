/** The part of `PurePosixPath` the filesystem relies on: a path is its list of
    components (already split and normalised, so no component is empty), plus
    whether it is rooted at "/".  pathlib's separate "//" root has no
    counterpart here.  `name`, `parent` and `/` follow pathlib. */
module Paths {

  datatype Path = Path(absolute: bool, parts: seq<string>)

  /** The root path "/". */
  const ROOT_PATH: Path := Path(true, [])

  /** pathlib never produces an empty component. */
  predicate WellFormed(p: Path) {
    forall i :: 0 <= i < |p.parts| ==> p.parts[i] != ""
  }

  /** `path.name`: the last component, or "" for the root (and for "."). */
  function Name(p: Path): (n: string)
    ensures WellFormed(p) ==> (n == "" <==> p.parts == [])
  {
    if p.parts == [] then "" else p.parts[|p.parts| - 1]
  }

  /** `path.parent`: the path without its last component; the root is its own
      parent. */
  function Parent(p: Path): (r: Path)
    ensures r.absolute == p.absolute
    ensures p.parts != [] ==> |r.parts| == |p.parts| - 1
    ensures WellFormed(p) ==> WellFormed(r)
  {
    Path(p.absolute, if p.parts == [] then [] else p.parts[..|p.parts| - 1])
  }

  /** `path / name` for a single component; joining "" leaves the path as it
      is. */
  function Join(p: Path, n: string): (r: Path)
    ensures n != "" ==> Name(r) == n && Parent(r) == p
    ensures n == "" ==> r == p
    ensures WellFormed(p) ==> WellFormed(r)
  {
    if n == "" then p else Path(p.absolute, p.parts + [n])
  }

  /** A path with a last component is its parent joined with its name. */
  lemma JoinParentName(p: Path)
    requires WellFormed(p) && p.parts != []
    ensures Join(Parent(p), Name(p)) == p
  {
    assert Parent(p).parts + [Name(p)] == p.parts;
  }

  predicate IsPrefix(a: seq<string>, b: seq<string>) {
    |a| <= |b| && b[..|a|] == a
  }
}
