/**
 The part of the operating system the cleanup touches: a tree of directories
 and files, and for each SQLite database file the names of its tables.
 `Disk` is that state as a value; `FileSystem` holds it and offers the calls
 the cleanup makes (`os.rmdir`, `os.remove`, `shutil.rmtree`, and a
 `DROP TABLE IF EXISTS` through `sqlite3`).
 */
module Storage {
  import opened Wrappers
  import opened Paths

  /** Errors of the calls the cleanup does not catch. */
  datatype Fault =
    | NotADirectory(path: Path)       // `os.listdir` on a path that is a file
    | CannotOpenDatabase(path: Path)  // `sqlite3.connect` on a path that is a directory

  datatype Disk = Disk(dirs: set<Path>, files: set<Path>, tables: map<Path, set<string>>)
  {
    /** `os.path.exists` */
    predicate Exists(p: Path)
    {
      p in dirs || p in files
    }

    /** The entries `os.listdir(p)` lists, as full paths. */
    function Children(p: Path): set<Path>
    {
      set q | q in dirs + files && |q| > 0 && Dirname(q) == p
    }

    /** Every path with a parent has its parent as a directory, nothing is
        both a file and a directory, and only files hold tables. */
    predicate WellFormed()
    {
      && dirs !! files
      && (forall q :: q in dirs && |q| > 1 ==> Dirname(q) in dirs)
      && (forall q :: q in files && |q| > 1 ==> Dirname(q) in dirs)
      && tables.Keys <= files
    }

    /** `os.rmdir(p)` */
    function RemoveDir(p: Path): Disk
    {
      this.(dirs := dirs - {p})
    }

    /** `os.remove(p)`: removes a file with its tables; does nothing (it
        raises, and the caller swallows the error) on anything else. */
    function RemoveFile(p: Path): Disk
    {
      if p in files then this.(files := files - {p}, tables := tables - {p}) else this
    }

    /** `os.remove` of each path of `s`. */
    function RemoveFiles(s: set<Path>): Disk
    {
      this.(files := files - s, tables := tables - (s * files))
    }

    /** `shutil.rmtree(p)`: removes a directory and everything below it;
        does nothing (it raises, and the caller swallows the error) when `p`
        is not a directory. */
    function RemoveTree(p: Path): Disk
    {
      if p in dirs
      then Disk(dirs - Below(dirs, p), files - Below(files, p), tables - Below(files, p))
      else this
    }

    /** `DROP TABLE IF EXISTS name` in the database file `db`: SQLite
        compares table names ignoring ASCII case. */
    function DropTable(db: Path, name: string): Disk
    {
      if db in tables then this.(tables := tables[db := Undropped(tables[db], name)]) else this
    }
  }

  /** SQLite's folding of an identifier: ASCII upper case to lower case,
      every other character unchanged. */
  function AsciiLower(s: string): (r: string)
    ensures |r| == |s|
    ensures forall i :: 0 <= i < |s| ==> r[i] == if 'A' <= s[i] <= 'Z' then (s[i] as int + 32) as char else s[i]
  {
    if s == [] then []
    else [if 'A' <= s[0] <= 'Z' then (s[0] as int + 32) as char else s[0]] + AsciiLower(s[1..])
  }

  /** The names SQLite takes for the same table. */
  predicate SameTableName(a: string, b: string)
  {
    AsciiLower(a) == AsciiLower(b)
  }

  /** The tables left after dropping `name`. */
  function Undropped(ts: set<string>, name: string): set<string>
  {
    set t | t in ts && !SameTableName(t, name)
  }

  /** Names that differ only in the case of ASCII letters are the same table;
      names that differ in any other character are not. */
  lemma SameTableNameCases(a: string, b: string, i: nat)
    requires |a| == |b| && i < |a|
    requires forall j :: 0 <= j < |a| && j != i ==> a[j] == b[j]
    ensures 'A' <= a[i] <= 'Z' && b[i] == (a[i] as int + 32) as char ==> SameTableName(a, b)
    ensures !('A' <= a[i] <= 'Z') && !('A' <= b[i] <= 'Z') && a[i] != b[i] ==> !SameTableName(a, b)
  {
    if !('A' <= a[i] <= 'Z') && !('A' <= b[i] <= 'Z') && a[i] != b[i] {
      assert AsciiLower(a)[i] != AsciiLower(b)[i];
    }
  }

  /** The paths of `s` at or below `p`. */
  function Below(s: set<Path>, p: Path): set<Path>
  {
    set q | q in s && p <= q
  }

  /** Removing one more file is removing the enlarged set of files. */
  lemma RemoveFilesStep(d: Disk, s: set<Path>, f: Path)
    ensures d.RemoveFiles(s).RemoveFile(f) == d.RemoveFiles(s + {f})
  {
    var a := d.RemoveFiles(s).RemoveFile(f);
    var b := d.RemoveFiles(s + {f});
    assert a.files == b.files;
    if f in d.files - s {
      assert (s + {f}) * d.files == s * d.files + {f};
    } else {
      assert (s + {f}) * d.files == s * d.files;
    }
    assert a.tables.Keys == b.tables.Keys;
  }

  /** Removing an empty directory keeps the tree well formed. */
  lemma RemoveDirWellFormed(d: Disk, p: Path)
    requires d.WellFormed() && p in d.dirs && d.Children(p) == {}
    ensures d.RemoveDir(p).WellFormed()
  {
    var r := d.RemoveDir(p);
    forall q | q in r.dirs + r.files && |q| > 1
      ensures Dirname(q) in r.dirs
    {
      assert q in d.dirs + d.files && q !in d.Children(p);
    }
  }

  /** Removing files keeps the tree well formed. */
  lemma RemoveFilesWellFormed(d: Disk, s: set<Path>)
    requires d.WellFormed()
    ensures d.RemoveFiles(s).WellFormed()
  {
  }

  /** Removing a whole subtree keeps the tree well formed. */
  lemma RemoveTreeWellFormed(d: Disk, p: Path)
    requires d.WellFormed()
    ensures d.RemoveTree(p).WellFormed()
  {
    if p in d.dirs {
      var r := d.RemoveTree(p);
      forall q | q in r.dirs + r.files && |q| > 1
        ensures Dirname(q) in r.dirs
      {
        assert Dirname(q) in d.dirs && Dirname(q) <= q;
      }
    }
  }

  /** Dropping a table keeps the tree well formed. */
  lemma DropTableWellFormed(d: Disk, db: Path, name: string)
    requires d.WellFormed()
    ensures d.DropTable(db, name).WellFormed()
  {
  }

  class FileSystem {
    var dirs: set<Path>
    var files: set<Path>
    var tables: map<Path, set<string>>

    function State(): Disk
      reads this
    {
      Disk(dirs, files, tables)
    }

    constructor (d: Disk)
      ensures State() == d
    {
      dirs, files, tables := d.dirs, d.files, d.tables;
    }

    /** `os.rmdir(p)`: succeeds on an empty directory only. */
    method Rmdir(p: Path) returns (ok: bool)
      modifies this
      ensures ok == (p in old(State()).dirs && old(State()).Children(p) == {})
      ensures State() == if ok then old(State()).RemoveDir(p) else old(State())
    {
      ok := p in dirs && State().Children(p) == {};
      if ok {
        dirs := dirs - {p};
      }
    }

    /** `os.remove(p)`: succeeds on a file only. */
    method Remove(p: Path) returns (ok: bool)
      modifies this
      ensures ok == (p in old(files))
      ensures State() == old(State()).RemoveFile(p)
    {
      ok := p in files;
      if ok {
        files := files - {p};
        tables := tables - {p};
      }
    }

    /** `shutil.rmtree(p)`: succeeds on a directory only. */
    method RmTree(p: Path) returns (ok: bool)
      modifies this
      ensures ok == (p in old(dirs))
      ensures State() == old(State()).RemoveTree(p)
    {
      ok := p in dirs;
      if ok {
        var gone := Below(files, p);
        dirs, files, tables := dirs - Below(dirs, p), files - gone, tables - gone;
      }
    }

    /** `sqlite3.connect(db)` on an existing path, then `DROP TABLE IF
        EXISTS name`: a directory cannot be opened as a database. */
    method DropTableIfExists(db: Path, name: string) returns (fault: Option<Fault>)
      requires db in dirs || db in files
      modifies this
      ensures fault == if db in old(files) then None else Some(CannotOpenDatabase(db))
      ensures State() == if db in old(files) then old(State()).DropTable(db, name) else old(State())
    {
      if db in files {
        fault := None;
        if db in tables {
          tables := tables[db := Undropped(tables[db], name)];
        }
      } else {
        fault := Some(CannotOpenDatabase(db));
      }
    }
  }
}
