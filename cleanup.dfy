/**
 The module-level `clean_output`, `clean_raster` and `clean_vector`: before
 `grass` runs a rule's command, remove the directories Snakemake left empty
 above each output and the parts of a raster or vector map that Snakemake's
 own removal does not know about.

 Each method works on a `FileSystem` and is specified by a function from the
 old `Disk` to the new one (`RasterCleaned`, `VectorCleaned`, `CleanAll`);
 the lemmas in `CleanupFacts` state what those functions remove and keep.
 */
module Cleanup {
  import opened Wrappers
  import opened Strings
  import opened Paths
  import opened Location
  import opened Storage

  /** The raster ancillary directories of a mapset, in the source's order. */
  const AncillaryKinds: seq<string> := ["cats", "cell", "cell_misc", "colr", "fcell", "hist"]

  /** The disk after a cleanup step, with the error that stopped it, if any. */
  datatype Outcome = Outcome(disk: Disk, fault: Option<Fault>)

  /** Which resource an output path was recognised as. */
  datatype Resource = RasterMap | VectorMap | OtherPath

  /** `dirname(dirname(path))`: the mapset directory of a map path. */
  function MapsetDir(p: Path): Path
  {
    Dirname(Dirname(p))
  }

  /** `mapset/kind/name` for the map at `p`. */
  function Fragment(p: Path, kind: string): Path
  {
    MapsetDir(p) + [kind, Basename(p)]
  }

  /** The ancillary files `clean_raster(p)` removes. */
  function Fragments(p: Path): set<Path>
  {
    set k | k in AncillaryKinds :: Fragment(p, k)
  }

  /** The disk after `clean_raster(p)`. */
  function RasterCleaned(d: Disk, p: Path): Disk
  {
    d.RemoveFiles(Fragments(p))
  }

  /** `mapset/sqlite/sqlite.db` for the map at `p`. */
  function SqliteDb(p: Path): Path
  {
    MapsetDir(p) + ["sqlite", "sqlite.db"]
  }

  /** The outcome of `clean_vector(p)`: the vector's directory tree goes,
      then its table is dropped when the mapset's database exists. */
  function VectorCleaned(d: Disk, p: Path): Outcome
  {
    var d1 := d.RemoveTree(p);
    var db := SqliteDb(p);
    if !d1.Exists(db) then Outcome(d1, None)
    else if db in d1.files then Outcome(d1.DropTable(db, Basename(p)), None)
    else Outcome(d1, Some(CannotOpenDatabase(db)))
  }

  /** One step of the loop over 'type', 'mapset' and 'location': `pd` is
      removed when it exists and is an empty directory; `os.listdir` raises
      when it exists and is not a directory. */
  function PruneStep(d: Disk, pd: Path): Outcome
  {
    if pd in d.dirs then Outcome(if d.Children(pd) == {} then d.RemoveDir(pd) else d, None)
    else if pd in d.files then Outcome(d, Some(NotADirectory(pd)))
    else Outcome(d, None)
  }

  /** The first `k` steps of that loop, innermost directory first. */
  function Prune(d: Disk, p: Path, k: nat): Outcome
    decreases k
  {
    if k == 0 then Outcome(d, None)
    else
      var o := Prune(d, p, k - 1);
      if o.fault.Some? then o else PruneStep(o.disk, Ancestor(p, k))
  }

  /** One more step of the loop, after steps that raised nothing. */
  lemma PruneNext(d: Disk, p: Path, k: nat)
    requires Prune(d, p, k).fault.None?
    ensures Prune(d, p, k + 1) == PruneStep(Prune(d, p, k).disk, Dirname(Ancestor(p, k)))
  {
  }

  /** The scope test of `clean_output`: a plain string-prefix test on the
      (already canonical) paths. */
  predicate InScope(pathToLocation: string, path: string)
  {
    pathToLocation <= path
  }

  /** The recognition of an output path: a raster when it is the raster path
      of `name@mapset`, else a vector when it is that vector's path, where
      `name` is the base name of the path and `mapset` the base name two
      levels up, resolved in the location `clean_output` builds. */
  function ResourceOf(pathToLocation: string, path: string): Resource
  {
    var p := ParsePath(path);
    var ref := Basename(p) + "@" + Basename(Ancestor(p, 2));
    var grass := CleanupLocation(ParsePath(pathToLocation));
    var raster := grass.Raster(ref);
    var vector := grass.Vector(ref, true);
    if raster.Ok? && Render(raster.value) == path then RasterMap
    else if vector.Ok? && Render(vector.value.path) == path then VectorMap
    else OtherPath
  }

  /** The body of the loop of `clean_output` for one output path. */
  function CleanPath(d: Disk, pathToLocation: string, path: string): Outcome
  {
    if !InScope(pathToLocation, path) then Outcome(d, None)
    else
      var p := ParsePath(path);
      var o := Prune(d, p, 3);
      if o.fault.Some? then o
      else
        match ResourceOf(pathToLocation, path)
        case RasterMap => Outcome(RasterCleaned(o.disk, p), None)
        case VectorMap => VectorCleaned(o.disk, p)
        case OtherPath => o
  }

  /** `clean_output` over the output paths in order; an error stops it. */
  function CleanAll(d: Disk, pathToLocation: string, paths: seq<string>): Outcome
    decreases |paths|
  {
    if paths == [] then Outcome(d, None)
    else
      var o := CleanPath(d, pathToLocation, paths[0]);
      if o.fault.Some? then o else CleanAll(o.disk, pathToLocation, paths[1..])
  }

  /** The output paths of `clean_output`: a string is split on white space,
      a list is taken as it is. */
  datatype OutputPaths = PathText(text: string) | PathList(items: seq<string>)

  function PathsOf(paths: OutputPaths): seq<string>
  {
    match paths
    case PathText(t) => Words(t)
    case PathList(ps) => ps
  }

  /** `clean_raster(path)`: removes `mapset/kind/name` for each ancillary
      kind, ignoring those that are missing. */
  method CleanRaster(fs: FileSystem, path: Path)
    modifies fs
    ensures fs.State() == RasterCleaned(old(fs.State()), path)
  {
    var name := Basename(path);
    var msPath := Dirname(Dirname(path));
    ghost var d0 := fs.State();
    var i := 0;
    while i < |AncillaryKinds|
      invariant 0 <= i <= |AncillaryKinds|
      invariant fs.State() == d0.RemoveFiles(set k | k in AncillaryKinds[..i] :: Fragment(path, k))
    {
      ghost var done := set k | k in AncillaryKinds[..i] :: Fragment(path, k);
      var removed := fs.Remove(msPath + [AncillaryKinds[i], name]);
      RemoveFilesStep(d0, done, Fragment(path, AncillaryKinds[i]));
      assert (set k | k in AncillaryKinds[..i + 1] :: Fragment(path, k))
             == done + {Fragment(path, AncillaryKinds[i])} by {
        assert AncillaryKinds[..i + 1] == AncillaryKinds[..i] + [AncillaryKinds[i]];
      }
      i := i + 1;
    }
    assert AncillaryKinds[..i] == AncillaryKinds;
  }

  /** `clean_vector(path)`: removes the vector's directory tree, ignoring a
      missing one, then drops the table named after the vector when the
      mapset's SQLite database exists. */
  method CleanVector(fs: FileSystem, path: Path) returns (fault: Option<Fault>)
    modifies fs
    ensures Outcome(fs.State(), fault) == VectorCleaned(old(fs.State()), path)
  {
    var removed := fs.RmTree(path);
    var name := Basename(path);
    var msPath := Dirname(Dirname(path));
    var sqlitedb := msPath + ["sqlite", "sqlite.db"];
    if sqlitedb in fs.dirs || sqlitedb in fs.files {
      fault := fs.DropTableIfExists(sqlitedb, name);
    } else {
      fault := None;
    }
  }

  /** The inner loop of `clean_output`: for the 'type', 'mapset' and
      'location' directories above `path`, remove each that is empty. */
  method PruneAncestors(fs: FileSystem, path: Path) returns (fault: Option<Fault>)
    modifies fs
    ensures Outcome(fs.State(), fault) == Prune(old(fs.State()), path, 3)
  {
    ghost var d0 := fs.State();
    var pd := path;
    var k := 0;
    while k < 3
      invariant 0 <= k <= 3
      invariant pd == Ancestor(path, k)
      invariant Prune(d0, path, k) == Outcome(fs.State(), None)
    {
      pd := Dirname(pd);
      PruneNext(d0, path, k);
      if pd in fs.dirs {
        if fs.State().Children(pd) == {} {
          var ok := fs.Rmdir(pd);
        }
      } else if pd in fs.files {
        return Some(NotADirectory(pd));
      }
      k := k + 1;
    }
    fault := None;
  }

  /** `clean_output(pathtolocation, output_paths)` */
  method CleanOutput(fs: FileSystem, pathToLocation: string, outputPaths: OutputPaths)
    returns (fault: Option<Fault>)
    modifies fs
    ensures Outcome(fs.State(), fault) == CleanAll(old(fs.State()), pathToLocation, PathsOf(outputPaths))
  {
    var paths := match outputPaths
                 case PathText(t) => Words(t)
                 case PathList(ps) => ps;
    ghost var d0 := fs.State();
    var i := 0;
    while i < |paths|
      invariant 0 <= i <= |paths|
      invariant CleanAll(fs.State(), pathToLocation, paths[i..]) == CleanAll(d0, pathToLocation, paths)
    {
      var path := paths[i];
      ghost var before := fs.State();
      assert paths[i..][0] == path && paths[i..][1..] == paths[i + 1..];
      if InScope(pathToLocation, path) {
        var p := ParsePath(path);
        fault := PruneAncestors(fs, p);
        if fault.Some? {
          return;
        }
        ghost var pruned := fs.State();
        assert Prune(before, p, 3) == Outcome(pruned, None);
        var resource := ResourceOf(pathToLocation, path);
        if resource == RasterMap {
          CleanRaster(fs, p);
          assert CleanPath(before, pathToLocation, path) == Outcome(RasterCleaned(pruned, p), None);
        } else if resource == VectorMap {
          fault := CleanVector(fs, p);
          assert CleanPath(before, pathToLocation, path) == VectorCleaned(pruned, p);
          if fault.Some? {
            return;
          }
        } else {
          assert CleanPath(before, pathToLocation, path) == Outcome(pruned, None);
        }
      } else {
        assert CleanPath(before, pathToLocation, path) == Outcome(before, None);
      }
      i := i + 1;
    }
    assert paths[i..] == [];
    fault := None;
  }
}
