/** What the cleanup of `clean_output`, `clean_raster` and `clean_vector`
    removes, what it keeps, and when it stops with an error. */
module CleanupFacts {
  import opened Wrappers
  import opened Strings
  import opened Paths
  import opened Location
  import opened LocationFacts
  import opened Storage
  import opened Cleanup

  /** The directories the first `k` steps of the pruning loop look at. */
  function Ancestors(p: Path, k: nat): set<Path>
  {
    set j: nat | 1 <= j <= k :: Ancestor(p, j)
  }

  lemma AncestorsNext(p: Path, k: nat)
    ensures Ancestors(p, k + 1) == Ancestors(p, k) + {Ancestor(p, k + 1)}
  {
    assert Ancestor(p, k + 1) in Ancestors(p, k + 1);
  }

  /** The pruning loop never touches a file or a table; it removes only
      directories above the output, and only directories all of whose
      entries it has removed before. */
  lemma {:induction false} PruneRemovesOnlyEmptyAncestors(d: Disk, p: Path, k: nat)
    ensures Prune(d, p, k).disk.files == d.files
    ensures Prune(d, p, k).disk.tables == d.tables
    ensures Prune(d, p, k).disk.dirs <= d.dirs
    ensures d.dirs - Prune(d, p, k).disk.dirs <= Ancestors(p, k)
    ensures forall q :: q in d.dirs - Prune(d, p, k).disk.dirs ==>
              d.Children(q) <= d.dirs - Prune(d, p, k).disk.dirs
  {
    if k > 0 {
      PruneRemovesOnlyEmptyAncestors(d, p, k - 1);
      AncestorsNext(p, k - 1);
      var o := Prune(d, p, k - 1);
      var pd := Ancestor(p, k);
      if o.fault.None? && pd in o.disk.dirs && o.disk.Children(pd) == {} {
        var removed := d.dirs - o.disk.dirs;
        assert d.dirs - Prune(d, p, k).disk.dirs == removed + {pd};
        forall q | q in d.Children(pd)
          ensures q in removed
        {
          assert q !in o.disk.Children(pd);
        }
      }
    }
  }

  /** `Ancestor(p, j)` is the first directory above `p` that is a file. */
  predicate FirstFileAbove(d: Disk, p: Path, j: nat)
  {
    && 1 <= j
    && Ancestor(p, j) in d.files
    && forall i: nat :: 1 <= i < j ==> Ancestor(p, i) !in d.files
  }

  /** The loop stops with an error exactly when one of the directories
      above the output is a file, and the error names the first such. */
  lemma {:induction false} PruneFault(d: Disk, p: Path, k: nat)
    requires d.dirs !! d.files
    ensures Prune(d, p, k).fault.Some? <==> exists j: nat :: 1 <= j <= k && Ancestor(p, j) in d.files
    ensures Prune(d, p, k).fault.Some? ==>
              exists j: nat :: j <= k && FirstFileAbove(d, p, j)
                               && Prune(d, p, k).fault == Some(NotADirectory(Ancestor(p, j)))
  {
    if k > 0 {
      PruneFault(d, p, k - 1);
      PruneRemovesOnlyEmptyAncestors(d, p, k - 1);
      var o := Prune(d, p, k - 1);
      if o.fault.None? {
        assert forall i: nat :: 1 <= i <= k - 1 ==> Ancestor(p, i) !in d.files;
        if Ancestor(p, k) in d.files {
          assert Ancestor(p, k) !in o.disk.dirs;
          assert Prune(d, p, k).fault == Some(NotADirectory(Ancestor(p, k)));
          assert FirstFileAbove(d, p, k);
          assert 1 <= k <= k && Ancestor(p, k) in d.files;
        } else {
          assert forall j: nat :: 1 <= j <= k ==> Ancestor(p, j) !in d.files;
          assert Prune(d, p, k).fault.None?;
        }
      } else {
        var j: nat :| j <= k - 1 && FirstFileAbove(d, p, j) && o.fault == Some(NotADirectory(Ancestor(p, j)));
        assert Prune(d, p, k) == o;
        assert 1 <= j <= k && Ancestor(p, j) in d.files;
      }
    }
  }

  /** The directories Snakemake creates for an output and leaves empty all
      go: when each directory above the output holds nothing but the ones
      below it on the way to the output, the loop removes every one of them
      and nothing else. */
  lemma {:induction false} PruneRemovesEmptyChain(d: Disk, p: Path, k: nat)
    requires d.dirs !! d.files
    requires forall j: nat :: 1 <= j <= k ==> Ancestor(p, j) in d.dirs
    requires forall j: nat :: 1 <= j <= k ==> d.Children(Ancestor(p, j)) <= Ancestors(p, j - 1)
    ensures Prune(d, p, k) == Outcome(d.(dirs := d.dirs - Ancestors(p, k)), None)
  {
    if k > 0 {
      PruneRemovesEmptyChain(d, p, k - 1);
      AncestorsNext(p, k - 1);
      var cur := d.(dirs := d.dirs - Ancestors(p, k - 1));
      var pd := Ancestor(p, k);
      if pd in cur.dirs {
        assert forall q :: q in cur.Children(pd) ==> q in d.Children(pd);
        assert cur.Children(pd) == {};
        assert cur.RemoveDir(pd).dirs == d.dirs - Ancestors(p, k);
      } else {
        assert pd !in cur.files;
      }
    }
  }

  /** The pruning loop keeps the tree well formed. */
  lemma {:induction false} PruneWellFormed(d: Disk, p: Path, k: nat)
    requires d.WellFormed()
    ensures Prune(d, p, k).disk.WellFormed()
    decreases k
  {
    if k > 0 {
      PruneWellFormed(d, p, k - 1);
      var o := Prune(d, p, k - 1);
      var pd := Ancestor(p, k);
      if o.fault.None? && pd in o.disk.dirs && o.disk.Children(pd) == {} {
        RemoveDirWellFormed(o.disk, pd);
      }
    }
  }

  /** `f` is one of the ancillary files of the raster at `p`: same mapset,
      same name, and one of the ancillary kinds as its directory. */
  predicate AncillaryOf(f: Path, p: Path)
  {
    && |f| == |p| >= 2
    && MapsetDir(f) == MapsetDir(p)
    && Basename(f) == Basename(p)
    && f[|f| - 2] in AncillaryKinds
  }

  lemma FragmentsAreAncillary(p: Path, f: Path)
    requires |p| >= 2
    ensures f in Fragments(p) <==> AncillaryOf(f, p)
  {
    if AncillaryOf(f, p) {
      assert f == Fragment(p, f[|f| - 2]);
    }
  }

  /** `clean_raster(p)` removes exactly the ancillary files of the raster
      (with their tables), keeps every directory, and keeps the cell header
      itself. */
  lemma RasterCleanedEffect(d: Disk, p: Path)
    requires |p| >= 2
    ensures RasterCleaned(d, p).dirs == d.dirs
    ensures forall f :: f in RasterCleaned(d, p).files <==> f in d.files && !AncillaryOf(f, p)
    ensures forall f :: f in RasterCleaned(d, p).tables <==>
              f in d.tables && !(f in d.files && AncillaryOf(f, p))
    ensures forall f :: f in RasterCleaned(d, p).tables ==> RasterCleaned(d, p).tables[f] == d.tables[f]
    ensures p[|p| - 2] == "cellhd" ==> (p in RasterCleaned(d, p).files <==> p in d.files)
  {
    forall f
      ensures f in Fragments(p) <==> AncillaryOf(f, p)
    {
      FragmentsAreAncillary(p, f);
    }
  }

  /** Cleaning a raster twice is cleaning it once. */
  lemma RasterCleanIdempotent(d: Disk, p: Path)
    ensures RasterCleaned(RasterCleaned(d, p), p) == RasterCleaned(d, p)
  {
    var once := RasterCleaned(d, p);
    assert once.RemoveFiles(Fragments(p)).tables == once.tables;
  }

  /** `clean_vector(p)` on a vector path: the directory tree of the vector
      is gone and nothing outside it is removed; the call fails exactly when
      the mapset's database path is a directory. */
  lemma VectorCleanedTree(d: Disk, p: Path)
    requires |p| >= 2 && p[|p| - 2] != "sqlite"
    ensures VectorCleaned(d, p).fault.Some? <==> SqliteDb(p) in d.dirs && SqliteDb(p) !in d.files
    ensures VectorCleaned(d, p).fault.Some? ==>
              VectorCleaned(d, p).fault == Some(CannotOpenDatabase(SqliteDb(p)))
    ensures p in d.dirs ==> forall q :: p <= q ==> !VectorCleaned(d, p).disk.Exists(q)
    ensures forall q :: !(p in d.dirs && p <= q) ==>
              && (q in VectorCleaned(d, p).disk.dirs <==> q in d.dirs)
              && (q in VectorCleaned(d, p).disk.files <==> q in d.files)
  {
    var db := SqliteDb(p);
    assert db[|p| - 2] == "sqlite";
    assert !(p <= db);
  }

  /** `clean_vector(p)` drops the table named after the vector from the
      mapset's database, with every table whose name differs from it only in
      ASCII case, and leaves every other table as it was. */
  lemma VectorCleanedTables(d: Disk, p: Path)
    requires |p| >= 2 && p[|p| - 2] != "sqlite"
    ensures forall t :: t in VectorCleaned(d, p).disk.tables ==> t in d.tables
    ensures forall t :: t in d.tables && t != SqliteDb(p) && !(p in d.dirs && p <= t) ==>
              t in VectorCleaned(d, p).disk.tables && VectorCleaned(d, p).disk.tables[t] == d.tables[t]
    ensures SqliteDb(p) in d.tables && SqliteDb(p) in d.files ==>
              && SqliteDb(p) in VectorCleaned(d, p).disk.tables
              && forall t :: t in VectorCleaned(d, p).disk.tables[SqliteDb(p)] <==>
                   t in d.tables[SqliteDb(p)] && AsciiLower(t) != AsciiLower(Basename(p))
  {
    var db := SqliteDb(p);
    assert db[|p| - 2] == "sqlite";
    assert !(p <= db);
  }

  /** Every component of a path read from a string is free of '/'. */
  lemma ParsedComponents(s: string)
    ensures forall i :: 0 <= i < |ParsePath(s)| ==> '/' !in ParsePath(s)[i]
  {
  }

  /** The location `clean_output` builds has the given path as its own. */
  lemma CleanupLocationPath(loc: Path)
    requires loc != []
    ensures CleanupLocation(loc).LocationPath() == loc
  {
  }

  lemma AncestorNameFree(p: Path, k: nat)
    requires forall i :: 0 <= i < |p| ==> '/' !in p[i]
    ensures '/' !in Basename(Ancestor(p, k))
  {
    var a := Ancestor(p, k);
    if a != [] {
      assert a[|a| - 1] == p[|a| - 1];
    }
  }

  /** A '/'-free reference resolves, with a default mapset, to '/'-free
      names. */
  lemma MapMapsetNameFree(grass: GrassLocation, ref: string)
    requires '/' !in ref
    requires grass.defaultMapset == Some("PERMANENT")
    ensures grass.MapMapset(ref).Ok?
    ensures '/' !in grass.MapMapset(ref).value.0 && '/' !in grass.MapMapset(ref).value.1
  {
    var nm := Split(ref, '@');
    SplitWithin(ref, '@', '/');
    assert '/' !in nm[0];
    if |nm| == 2 {
      assert '/' !in nm[1];
    } else {
      assert FirstOrRaise([grass.defaultMapset]) == Ok("PERMANENT");
    }
  }

  /** The map reference `clean_output` builds from a path resolves to
      '/'-free names. */
  lemma ReferenceComponents(p: Path, grass: GrassLocation)
    requires forall i :: 0 <= i < |p| ==> '/' !in p[i]
    requires grass.defaultMapset == Some("PERMANENT")
    ensures grass.MapMapset(Basename(p) + "@" + Basename(Ancestor(p, 2))).Ok?
    ensures '/' !in grass.MapMapset(Basename(p) + "@" + Basename(Ancestor(p, 2))).value.0
    ensures '/' !in grass.MapMapset(Basename(p) + "@" + Basename(Ancestor(p, 2))).value.1
  {
    AncestorNameFree(p, 0);
    AncestorNameFree(p, 2);
    var ref := Basename(p) + "@" + Basename(Ancestor(p, 2));
    assert '/' !in ref;
    MapMapsetNameFree(grass, ref);
  }

  lemma CanonicalExtend(loc: Path, a: string, b: string, c: string)
    requires Canonical(loc) && '/' !in a && '/' !in b && '/' !in c
    ensures Canonical(loc + [a, b, c])
  {
    var q := loc + [a, b, c];
    forall i | 0 <= i < |q|
      ensures '/' !in q[i]
    {
      if i < |loc| {
        assert q[i] == loc[i];
      }
    }
  }

  /** The raster and vector paths `clean_output` compares an output path
      with: canonical, and inside the location it was given. */
  lemma CandidatePaths(loc: string, path: string)
    ensures var p := ParsePath(path);
            var grass := CleanupLocation(ParsePath(loc));
            var ref := Basename(p) + "@" + Basename(Ancestor(p, 2));
            && grass.MapMapset(ref).Ok?
            && grass.Raster(ref) == Ok(ParsePath(loc) + [grass.MapMapset(ref).value.1, "cellhd", grass.MapMapset(ref).value.0])
            && grass.Vector(ref, true) == Ok(Directory(ParsePath(loc) + [grass.MapMapset(ref).value.1, "vector", grass.MapMapset(ref).value.0]))
            && Canonical(grass.Raster(ref).value)
            && Canonical(grass.Vector(ref, true).value.path)
  {
    var p := ParsePath(path);
    var P := ParsePath(loc);
    var grass := CleanupLocation(P);
    var ref := Basename(p) + "@" + Basename(Ancestor(p, 2));
    RenderParse(loc, []);
    ParsedComponents(loc);
    ParsedComponents(path);
    CleanupLocationPath(P);
    ReferenceComponents(p, grass);
    var (nm, ms) := grass.MapMapset(ref).value;
    CanonicalExtend(P, ms, "cellhd", nm);
    CanonicalExtend(P, ms, "vector", nm);
  }

  /** A path recognised as a raster is the `cellhd` entry, and one
      recognised as a vector the `vector` entry, of the mapset two levels
      above it, inside the location: recognition never misreads a path. */
  lemma RecognisedPaths(loc: string, path: string)
    ensures ResourceOf(loc, path) == RasterMap ==>
              ParsePath(path) == ParsePath(loc)
                                 + [Basename(Ancestor(ParsePath(path), 2)), "cellhd", Basename(ParsePath(path))]
    ensures ResourceOf(loc, path) == VectorMap ==>
              ParsePath(path) == ParsePath(loc)
                                 + [Basename(Ancestor(ParsePath(path), 2)), "vector", Basename(ParsePath(path))]
  {
    var p := ParsePath(path);
    var grass := CleanupLocation(ParsePath(loc));
    var ref := Basename(p) + "@" + Basename(Ancestor(p, 2));
    CandidatePaths(loc, path);
    var (nm, ms) := grass.MapMapset(ref).value;
    if ResourceOf(loc, path) == RasterMap {
      RenderParse(path, grass.Raster(ref).value);
      AncestorsOfThree(ParsePath(loc), ms, "cellhd", nm);
    } else if ResourceOf(loc, path) == VectorMap {
      RenderParse(path, grass.Vector(ref, true).value.path);
      AncestorsOfThree(ParsePath(loc), ms, "vector", nm);
    }
  }

  /** How `clean_output` reads the path `loc + [ms, kind, nm]` back, when
      the names are '/'-free and '@'-free: the location is `loc`, and the
      reference it builds resolves to `nm` in `ms`. */
  lemma ReadBack(loc: Path, ms: string, kind: string, nm: string)
    requires Canonical(loc)
    requires '/' !in ms && '/' !in kind && '/' !in nm && '@' !in ms && '@' !in nm
    ensures var q := loc + [ms, kind, nm];
            && ParsePath(Render(q)) == q
            && ParsePath(Render(loc)) == loc
            && InScope(Render(loc), Render(q))
            && CleanupLocation(loc).LocationPath() == loc
            && CleanupLocation(loc).MapMapset(Basename(q) + "@" + Basename(Ancestor(q, 2))) == Ok((nm, ms))
  {
    var q := loc + [ms, kind, nm];
    CanonicalExtend(loc, ms, kind, nm);
    RenderParse(Render(q), q);
    RenderParse(Render(loc), loc);
    RenderAppend(loc, [ms, kind, nm]);
    AncestorsOfThree(loc, ms, kind, nm);
    CleanupLocationPath(loc);
    QualifiedReference(CleanupLocation(loc), nm, ms);
  }

  /** A raster path of the location, with '@'-free names, is in scope and
      recognised as a raster. */
  lemma RasterRecognised(loc: Path, ms: string, nm: string)
    requires Canonical(loc)
    requires '/' !in ms && '/' !in nm && '@' !in ms && '@' !in nm
    ensures InScope(Render(loc), Render(loc + [ms, "cellhd", nm]))
    ensures ResourceOf(Render(loc), Render(loc + [ms, "cellhd", nm])) == RasterMap
  {
    var q := loc + [ms, "cellhd", nm];
    ReadBack(loc, ms, "cellhd", nm);
    var grass := CleanupLocation(loc);
    var ref := Basename(q) + "@" + Basename(Ancestor(q, 2));
    assert grass.Raster(ref) == Ok(q);
  }

  /** A vector path of the location, with '@'-free names, is in scope and
      recognised as a vector: it is never taken for a raster. */
  lemma VectorRecognised(loc: Path, ms: string, nm: string)
    requires Canonical(loc)
    requires '/' !in ms && '/' !in nm && '@' !in ms && '@' !in nm
    ensures InScope(Render(loc), Render(loc + [ms, "vector", nm]))
    ensures ResourceOf(Render(loc), Render(loc + [ms, "vector", nm])) == VectorMap
  {
    var q := loc + [ms, "vector", nm];
    var r := loc + [ms, "cellhd", nm];
    ReadBack(loc, ms, "vector", nm);
    ReadBack(loc, ms, "cellhd", nm);
    var grass := CleanupLocation(loc);
    var ref := Basename(q) + "@" + Basename(Ancestor(q, 2));
    assert grass.Raster(ref) == Ok(r);
    assert grass.Vector(ref, true) == Ok(Directory(q));
    assert r[|loc| + 1] != q[|loc| + 1];
    assert Render(r) != Render(q);
  }

  /** The components of a canonical path `loc + rest` make `loc` canonical
      too. */
  lemma CanonicalPrefix(loc: Path, rest: Path)
    requires |loc| >= 1 && Canonical(loc + rest)
    ensures Canonical(loc)
  {
    forall i | 0 <= i < |loc|
      ensures '/' !in loc[i]
    {
      assert loc[i] == (loc + rest)[i];
    }
  }

  /** The cleanup of a raster output of a location, as the inline call of
      `exec` runs it: the empty directories above it are pruned and then
      its ancillary files are removed. */
  lemma RasterOutputCleaned(d: Disk, g: GrassLocation, ref: string)
    requires g.Raster(ref).Ok? && Canonical(g.Raster(ref).value)
    requires '@' !in g.MapMapset(ref).value.0 && '@' !in g.MapMapset(ref).value.1
    ensures var path := g.Raster(ref).value;
            var o := Prune(d, path, 3);
            CleanPath(d, Render(g.LocationPath()), Render(path))
              == if o.fault.Some? then o else Outcome(RasterCleaned(o.disk, path), None)
  {
    ResourcePaths(g, ref, true);
    var (nm, ms) := g.MapMapset(ref).value;
    var path := g.Raster(ref).value;
    assert path == g.LocationPath() + [ms, "cellhd", nm];
    CanonicalPrefix(g.LocationPath(), [ms, "cellhd", nm]);
    assert path[|path| - 2] == "cellhd" && path[|path| - 3] == ms && path[|path| - 1] == nm;
    RasterRecognised(g.LocationPath(), ms, nm);
    RenderParse(Render(path), path);
  }

  /** The cleanup of a vector output of a location: the empty directories
      above it are pruned and then the vector is removed. */
  lemma VectorOutputCleaned(d: Disk, g: GrassLocation, ref: string)
    requires g.Vector(ref, true).Ok? && Canonical(g.Vector(ref, true).value.path)
    requires '@' !in g.MapMapset(ref).value.0 && '@' !in g.MapMapset(ref).value.1
    ensures var path := g.Vector(ref, true).value.path;
            var o := Prune(d, path, 3);
            CleanPath(d, Render(g.LocationPath()), Render(path))
              == if o.fault.Some? then o else VectorCleaned(o.disk, path)
  {
    ResourcePaths(g, ref, true);
    var (nm, ms) := g.MapMapset(ref).value;
    var path := g.Vector(ref, true).value.path;
    assert path == g.LocationPath() + [ms, "vector", nm];
    CanonicalPrefix(g.LocationPath(), [ms, "vector", nm]);
    assert path[|path| - 2] == "vector" && path[|path| - 3] == ms && path[|path| - 1] == nm;
    VectorRecognised(g.LocationPath(), ms, nm);
    RenderParse(Render(path), path);
  }

  /** Paths outside the location are left alone. */
  lemma {:induction false} OutOfScopeUntouched(d: Disk, loc: string, paths: seq<string>)
    requires forall i :: 0 <= i < |paths| ==> !InScope(loc, paths[i])
    ensures CleanAll(d, loc, paths) == Outcome(d, None)
  {
    if paths != [] {
      OutOfScopeUntouched(d, loc, paths[1..]);
    }
  }

  /** The paths are cleaned one after the other, and an error stops the
      rest: cleaning `a + b` is cleaning `a`, then `b` unless `a` failed. */
  lemma {:induction false} CleanAllAppend(d: Disk, loc: string, a: seq<string>, b: seq<string>)
    ensures CleanAll(d, loc, a + b)
              == var o := CleanAll(d, loc, a);
                 if o.fault.Some? then o else CleanAll(o.disk, loc, b)
    decreases |a|
  {
    if a == [] {
      assert a + b == b;
    } else {
      var o := CleanPath(d, loc, a[0]);
      assert (a + b)[0] == a[0] && (a + b)[1..] == a[1..] + b;
      if o.fault.None? {
        CleanAllAppend(o.disk, loc, a[1..], b);
      }
    }
  }

  /** Cleaning one path keeps the tree well formed. */
  lemma CleanPathWellFormed(d: Disk, loc: string, path: string)
    requires d.WellFormed()
    ensures CleanPath(d, loc, path).disk.WellFormed()
  {
    if InScope(loc, path) {
      var p := ParsePath(path);
      PruneWellFormed(d, p, 3);
      var o := Prune(d, p, 3);
      if o.fault.None? {
        var r := ResourceOf(loc, path);
        if r == RasterMap {
          RemoveFilesWellFormed(o.disk, Fragments(p));
          assert CleanPath(d, loc, path).disk == RasterCleaned(o.disk, p);
        } else if r == VectorMap {
          RemoveTreeWellFormed(o.disk, p);
          DropTableWellFormed(o.disk.RemoveTree(p), SqliteDb(p), Basename(p));
          assert CleanPath(d, loc, path) == VectorCleaned(o.disk, p);
        } else {
          assert CleanPath(d, loc, path) == o;
        }
      }
    }
  }

  /** `clean_output` keeps the tree well formed, whether it finishes or
      stops with an error. */
  lemma {:induction false} CleanAllWellFormed(d: Disk, loc: string, paths: seq<string>)
    requires d.WellFormed()
    ensures CleanAll(d, loc, paths).disk.WellFormed()
    decreases |paths|
  {
    if paths != [] {
      CleanPathWellFormed(d, loc, paths[0]);
      CleanAllWellFormed(CleanPath(d, loc, paths[0]).disk, loc, paths[1..]);
    }
  }

  /** The output paths may come as one space-separated string or as a
      list: both clean the same paths. */
  lemma TextAndListAgree(ws: seq<string>)
    requires forall i :: 0 <= i < |ws| ==> IsWord(ws[i])
    ensures PathsOf(PathText(Join(ws, ' '))) == PathsOf(PathList(ws))
  {
    WordsOfJoin(ws);
  }

  /** The scope test is on strings, not on path components: a path in a
      sibling location whose name extends the location's name (`db/loc`
      and `db/loc2/...`) passes it, so its directories are pruned like
      those of the location. */
  lemma ScopeAdmitsSiblingLocation(db: string, name: string, more: string, rest: string)
    requires '/' !in db && '/' !in name && '/' !in more && more != []
    ensures InScope(db + "/" + name, db + "/" + name + more + "/" + rest)
    ensures ParsePath(db + "/" + name) == [db, name]
    ensures ParsePath(db + "/" + name + more + "/" + rest)[..2] == [db, name + more]
    ensures name + more != name
  {
    var loc := db + "/" + name;
    var path := db + "/" + name + more + "/" + rest;
    assert ParsePath(loc) == [db, name] by {
      assert loc == db + ['/'] + name;
      SplitAfter(db, name, '/');
      SplitFree(name, '/');
    }
    assert ParsePath(path)[..2] == [db, name + more] by {
      var tail := (name + more) + ['/'] + rest;
      assert path == db + ['/'] + tail;
      SplitAfter(db, tail, '/');
      SplitAfter(name + more, rest, '/');
    }
    assert InScope(loc, path) by {
      assert path == loc + (more + "/" + rest);
    }
    assert |name + more| > |name|;
  }
}
