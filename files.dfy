/** An abstract local filesystem: a map from paths to entries. Paths are
    sequences of components relative to the working directory, so
    `uploads/video8/images` is `["uploads", "video8", "images"]`. */
module Files {

  type Path = seq<string>

  /** What a path holds. Frames and audio keep only what identifies them. */
  datatype Entry =
    | Dir
    | Image(frame: nat)          // a still written from decoded frame `frame`
    | Audio(samples: seq<int>)   // an audio file, one element per millisecond
    | Text(content: string)      // a text file

  type Tree = map<Path, Entry>

  /** `p` is `root` or lies below it. */
  predicate Under(p: Path, root: Path) {
    |root| <= |p| && p[..|root|] == root
  }

  /** The directories `os.makedirs(p)` creates: every non-empty prefix of `p`. */
  function Ancestors(p: Path): set<Path> {
    set i | 1 <= i <= |p| :: p[..i]
  }

  /** `os.makedirs(p, exist_ok=True)`: entries already present are kept. */
  function AfterMakeDirs(m: Tree, p: Path): (r: Tree)
    ensures r.Keys == m.Keys + Ancestors(p)
    ensures forall q :: q in m ==> r[q] == m[q]
    ensures forall q :: q in r && q !in m ==> r[q] == Dir
  {
    map q | q in m.Keys + Ancestors(p) :: if q in m then m[q] else Dir
  }

  /** Creating directories that already exist changes nothing. */
  lemma MakeDirsExisting(m: Tree, p: Path)
    requires Ancestors(p) <= m.Keys
    ensures AfterMakeDirs(m, p) == m
  {
  }

  /** `shutil.rmtree(root, ignore_errors=True)`: `root` and everything below it is gone. */
  function AfterRemoveTree(m: Tree, root: Path): (r: Tree)
    ensures r.Keys == set q | q in m && !Under(q, root)
    ensures forall q :: q in r ==> r[q] == m[q]
  {
    map q | q in m && !Under(q, root) :: m[q]
  }

  /** The names `os.listdir(dir)` reports: the first component below `dir` of every path under it. */
  function Children(m: Tree, dir: Path): set<string> {
    set q | q in m && |q| > |dir| && q[..|dir|] == dir :: q[|dir|]
  }

  /** The filesystem the pipeline runs against. */
  class FileSystem {
    var entries: Tree

    constructor (initial: Tree)
      ensures entries == initial
    {
      entries := initial;
    }

    method MakeDirs(p: Path)
      modifies this
      ensures entries == AfterMakeDirs(old(entries), p)
    {
      entries := AfterMakeDirs(entries, p);
    }

    /** Create or overwrite the file at `p`. */
    method Write(p: Path, e: Entry)
      modifies this
      ensures entries == old(entries)[p := e]
    {
      entries := entries[p := e];
    }

    /** `os.remove(p)`; `existed` is false where Python raises FileNotFoundError. */
    method Remove(p: Path) returns (existed: bool)
      modifies this
      ensures existed == (p in old(entries))
      ensures entries == old(entries) - {p}
    {
      existed := p in entries;
      entries := entries - {p};
    }

    method RemoveTree(root: Path)
      modifies this
      ensures entries == AfterRemoveTree(old(entries), root)
    {
      entries := AfterRemoveTree(entries, root);
    }

    /** `os.path.exists(p)`. */
    method Exists(p: Path) returns (b: bool)
      ensures b == (p in entries)
    {
      b := p in entries;
    }

    /** `os.listdir(dir)`: every child name once, in an order the model leaves open. */
    method ListDir(dir: Path) returns (names: seq<string>)
      ensures forall x :: x in names <==> x in Children(entries, dir)
      ensures forall i, j :: 0 <= i < j < |names| ==> names[i] != names[j]
    {
      var rest := Children(entries, dir);
      names := [];
      while rest != {}
        invariant forall x :: x in names || x in rest <==> x in Children(entries, dir)
        invariant forall x :: x in names ==> x !in rest
        invariant forall i, j :: 0 <= i < j < |names| ==> names[i] != names[j]
        decreases |rest|
      {
        var x :| x in rest;
        names := names + [x];
        rest := rest - {x};
      }
    }
  }
}
