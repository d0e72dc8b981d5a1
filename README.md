# snakemake_grass in Dafny

`snakemake_grass.py` lets Snakemake rules read and write GRASS GIS maps by
turning maps into file paths that Snakemake can track. This project models
its core and proves properties of it. The core has four parts:

- **Addressing.** The `GrassLocation` class holds a database directory, a
  location name, a default mapset, an EPSG code and a location file. It
  resolves `name@mapset` references with `map_mapset`. It builds the paths
  of the location, of its mapsets and of their rasters and vectors, and it
  resolves lists and dicts of references with `rasters` and `vectors`.
- **Shell templates.** `path_to_map`, `input_to_map` and `output_to_map`
  build the shell text that turns a Snakemake input or output path back
  into a map name.
- **Command construction.** `exec` builds the shell command that runs a
  GRASS module in a mapset. The command first cleans the outputs, creates
  the location and the mapset when they are missing, and sets
  `GRASS_OVERWRITE`.
- **Cleanup.** Before GRASS runs, the module-level `clean_output` prunes
  the empty directories Snakemake created above each output. It then calls
  `clean_raster` to remove a raster's ancillary files, or `clean_vector` to
  remove a vector's directory and drop its table.

Modules and files:

- `strings.dfy` (`Wrappers`, `Strings`, `Paths`): the Python string
  operations the module uses, with Python's behaviour, and paths as
  sequences of components.
- `location.dfy` (`Location`, `LocationFacts`): `GrassLocation` as a
  datatype, since no method changes its fields. `exec` is a method with
  the source's loop over the keyword arguments.
- `mapnames.dfy` (`MapNames`): the shell templates.
- `storage.dfy` (`Storage`): the file system as a value (`Disk`) and as a
  class (`FileSystem`) whose methods are the OS and SQLite calls the
  cleanup makes.
- `cleanup.dfy` (`Cleanup`) and `cleanup_facts.dfy` (`CleanupFacts`): the
  cleanup methods, the functions that specify them, and what those
  functions remove and keep.

Modelling choices:

- **Paths.** A path is a sequence of components. `Render` joins them with
  '/'. `ParsePath` splits a string on '/'.
- **Scope test.** The test at snakemake_grass.py:162 stays a plain string
  prefix test on the path texts. `CleanupFacts.ScopeAdmitsSiblingLocation`
  shows what follows from that: a path in `db/loc2` passes the test for
  the location `db/loc`, so the directories above it are pruned too.
- **Errors.** Python exceptions become results: `Err(AttributeError)`,
  `Err(ValueError)`, and for the cleanup a `Fault`.
- **Swallowed errors.** An exception the source swallows has no effect in
  the model.

- **Non-output vectors.** `vector(name, output=False)` returns the plain
  path (snakemake_grass.py:65), with no `ancient` flag. `mapset` with
  `output=False` is different: it flags its path `ancient`
  (snakemake_grass.py:54). `Location.GrassLocation.Vector` returns `Plain`
  for a non-output vector.
- **Directory flag.** `directory(path)` at snakemake_grass.py:174 is a `str`
  subclass, so the comparison there is on the path text.
- **Table names.** The `DROP TABLE IF EXISTS` at snakemake_grass.py:193
  names the table without quotes. SQLite matches such a name ignoring the
  case of ASCII letters, so `Storage.Disk.DropTable` drops every table
  whose name differs from it only in that case.

## Model

| member | source | states |
|---|---|---|
| Strings.Split | snakemake_grass.py:57 | `str.split(sep)` returns one part more than there are separators, and no part contains the separator |
| Strings.JoinSplit | snakemake_grass.py:57 | joining the parts of a split with the separator gives back the string |
| Strings.SplitJoin | snakemake_grass.py:57 | splitting a join of separator-free parts gives back the parts |
| Strings.CountAppend | snakemake_grass.py:57 | the '@'s of a concatenation are those of its parts together |
| Strings.Words | snakemake_grass.py:158 | every part of `str.split()` is a non-empty run without white space |
| Strings.WordsNormalize | snakemake_grass.py:158 | the parts of `str.split()` are the non-space runs of the string in order: joined with single spaces they give the string with each white-space run collapsed to one space and both ends trimmed |
| Strings.WordsOfJoin | snakemake_grass.py:158 | `str.split()` of space-joined words gives back the same words |
| Strings.IntText | snakemake_grass.py:111 | `'%s' % n` of an int is non-empty, starts with '-' exactly when n is negative, and holds only '-' and digits |
| Strings.NatTextValue | snakemake_grass.py:111 | the decimal text of a natural number reads back as that number |
| Strings.IntTextValue | snakemake_grass.py:137 | the text of an int reads back as that int, so distinct ints have distinct texts |
| Paths.RenderParse | snakemake_grass.py:42 | reading a path text and writing it again gives the same text; a path whose components are names survives writing and reading |
| Paths.RenderAppend | snakemake_grass.py:64 | joining more components onto a path writes the path text, a '/', then the new components, so the path text is a prefix |
| Location.FirstOrRaise | snakemake_grass.py:34-38 | returns a value exactly when some argument is not None, and then the first such; otherwise raises AttributeError |
| Location.ResolveAllElementwise | snakemake_grass.py:72 | a list comprehension over references succeeds exactly when every reference resolves; the result has the same length and element i is the resolution of reference i; a failure is the error of some element |
| Location.KeywordTextAppend | snakemake_grass.py:104-105 | each keyword argument is written on its own, in order: the text of `a + b` is the text of `a` followed by that of `b` |
| Location.ListKeywordRoundTrip | snakemake_grass.py:105 | a list value is written `k=v1,v2,...`, which splits on ',' back into the same values when none of them contains ',' |
| Location.GrassLocation.Exec | snakemake_grass.py:100-120 | the keyword loop ends with the full command line, and the result is the specified invocation: cleanup call, location guard, overwrite variable and GRASS run, or the mapset error |
| LocationFacts.MapsetPathChoice | snakemake_grass.py:48-50 | `mapset_path(name)` is the location path extended by `name`, else by the default mapset; it raises AttributeError exactly when both are None |
| LocationFacts.MapsetWind | snakemake_grass.py:52-54 | `mapset` is the WIND file of that mapset, flagged `ancient` exactly when it is not an output; it raises exactly when `mapset_path` does |
| LocationFacts.ProjectionFileOfPermanent | snakemake_grass.py:44-46 | `location` is the PROJ_INFO file of the PERMANENT mapset, inside the location path, whatever the default mapset |
| LocationFacts.FirstPartIsPrefix | snakemake_grass.py:57-60 | the map name is the longest prefix of the reference without '@' |
| LocationFacts.MapMapsetCases | snakemake_grass.py:56-60 | exactly one '@' gives `(name, mapset)` with the reference equal to `name@mapset`; any other count gives the first part in the default mapset, or AttributeError when there is no default |
| LocationFacts.QualifiedReference | snakemake_grass.py:56-60 | for '@'-free name and mapset, `map_mapset(name@mapset)` is `(name, mapset)` |
| LocationFacts.ReferenceRoundTrip | snakemake_grass.py:56-60 | rebuilding `name@mapset` from a resolution and resolving it again gives the same resolution, also when the default mapset contains '@' |
| LocationFacts.ResourcePaths | snakemake_grass.py:62-82 | `raster` and `vector` succeed exactly when `map_mapset` does; they give `location/ms/cellhd/nm` and `location/ms/vector/nm`; `output` changes only the `directory` flag; a raster path and a vector path of one reference differ |
| LocationFacts.ResourceErrors | snakemake_grass.py:62-82 | `raster` and `vector` raise AttributeError exactly when there is no default mapset and the reference does not have exactly one '@' |
| LocationFacts.RastersResolve | snakemake_grass.py:84-93 | a list gives a list of the same length and order; a dict gives a dict with the same keys, each value resolved; any other argument raises ValueError; a list or dict raises AttributeError exactly when one of its references does not resolve |
| LocationFacts.VectorsResolve | snakemake_grass.py:67-78 | the same as `rasters` for vectors, each flagged `directory` exactly when `output` is true |
| LocationFacts.RastersDictExample | snakemake_grass.py:90 | `{"a": "x", "b": "y@m"}` resolves to the cellhd paths of `x` in PERMANENT and of `y` in `m`, under the same keys |
| LocationFacts.InvocationLayout | snakemake_grass.py:100-120 | `exec` returns the cleanup call (when `clean`), the location guard, `GRASS_OVERWRITE=1 ` and the GRASS run in the resolved mapset, in that order; it raises AttributeError exactly when no mapset can be chosen |
| LocationFacts.FragmentsPresence | snakemake_grass.py:107-115 | the cleanup call is never empty; the location guard is empty exactly when neither a location file nor an EPSG code is set; a location file is preferred to the EPSG code |
| LocationFacts.KeywordTextInOrder | snakemake_grass.py:104-105 | the first keyword argument is written first, followed by the others |
| LocationFacts.CleanupSeesSameLocation | snakemake_grass.py:95-97 | the location path given to the inline cleanup call, read back by `clean_output`, gives the same location path |
| MapNames.IndexSuffix | snakemake_grass.py:136-137 | the index part is empty exactly when there is no index |
| MapNames.PathToMapIsMapWord | snakemake_grass.py:127-132 | `path_to_map(P, mapset)` is the text of the shell word that takes the base name of `P` and, with the mapset, an '@' and the base name of the directory two levels up; the shell expands that word at a path to `ShellMapName` of it |
| MapNames.PathToMapQualifier | snakemake_grass.py:127-132 | with the mapset, `path_to_map` adds exactly one '@' of its own to the two copies of the path; without it, none |
| MapNames.MapsetQualifier | snakemake_grass.py:135-144 | for an index whose text has no '@', `input_to_map` writes exactly one '@' and `output_to_map` none |
| MapNames.IndexSuffixInjective | snakemake_grass.py:136-137 | distinct indexes give distinct index parts: `[i]` for an int, `.i` for any other value, nothing for None |
| MapNames.PlaceholderInjective | snakemake_grass.py:135-144 | distinct indexes give distinct `{input...}`/`{output...}` placeholders |
| MapNames.ShellNameRecoversMap | snakemake_grass.py:127-132 | for a raster or vector path, the map name the shell computes resolves to the map and mapset the path was built from; without the mapset it is the map name |
| Storage.RemoveDirWellFormed | snakemake_grass.py:169 | removing an empty directory keeps the tree well formed |
| Storage.RemoveFilesWellFormed | snakemake_grass.py:202 | removing files keeps the tree well formed |
| Storage.RemoveTreeWellFormed | snakemake_grass.py:184 | removing a directory tree keeps the tree well formed |
| Storage.SameTableNameCases | snakemake_grass.py:193 | two names that differ in one position only are the same table when there an ASCII upper-case letter meets its lower case, and different tables when two distinct characters that are not upper-case letters meet |
| Storage.DropTableWellFormed | snakemake_grass.py:193 | dropping a table keeps the tree well formed |
| Storage.FileSystem.Rmdir | snakemake_grass.py:169 | `os.rmdir` succeeds exactly on an empty directory and then removes it; otherwise nothing changes |
| Storage.FileSystem.Remove | snakemake_grass.py:202 | `os.remove` succeeds exactly on a file and removes it with its tables; otherwise nothing changes |
| Storage.FileSystem.RmTree | snakemake_grass.py:184 | `shutil.rmtree` succeeds exactly on a directory and removes everything at or below it |
| Storage.FileSystem.DropTableIfExists | snakemake_grass.py:192-193 | on a database file every table whose name matches ignoring ASCII case is dropped; on a directory the connection fails |
| Cleanup.CleanRaster | snakemake_grass.py:197-205 | the disk after the loop is the old disk without the six ancillary files of the raster |
| Cleanup.CleanVector | snakemake_grass.py:179-194 | the disk and error after the call are those `VectorCleaned` gives: tree removed, then the table dropped when the database exists |
| Cleanup.PruneAncestors | snakemake_grass.py:166-170 | the disk and error after the loop over 'type', 'mapset' and 'location' are those of the specified pruning |
| Cleanup.CleanOutput | snakemake_grass.py:147-176 | the disk and error after the loop over the output paths are those `CleanAll` gives for the paths the text or list names |
| CleanupFacts.PruneRemovesOnlyEmptyAncestors | snakemake_grass.py:166-170 | pruning changes no file and no table; it removes only directories above the output, and only those whose entries it has already removed |
| CleanupFacts.PruneFault | snakemake_grass.py:167-168 | pruning stops with an error exactly when a directory above the output is a file, and the error names the first such |
| CleanupFacts.PruneRemovesEmptyChain | snakemake_grass.py:166-170 | when each directory above the output holds only the directories below it on the way to the output, pruning removes all of them, innermost first, and nothing else |
| CleanupFacts.PruneWellFormed | snakemake_grass.py:166-170 | pruning keeps the tree well formed |
| CleanupFacts.FragmentsAreAncillary | snakemake_grass.py:198-202 | the files `clean_raster` targets are exactly those with the raster's name in an ancillary directory of its mapset |
| CleanupFacts.RasterCleanedEffect | snakemake_grass.py:197-205 | `clean_raster` removes exactly the raster's ancillary files and their tables; it keeps every directory, every other file and table, and the cell header itself |
| CleanupFacts.RasterCleanIdempotent | snakemake_grass.py:197-205 | cleaning a raster twice is cleaning it once |
| CleanupFacts.VectorCleanedTree | snakemake_grass.py:183-192 | after `clean_vector` nothing at or below a vector directory exists and nothing else is removed; it fails exactly when the mapset's database path is a directory |
| CleanupFacts.VectorCleanedTables | snakemake_grass.py:187-193 | `clean_vector` drops from the mapset's database exactly the tables whose names match the vector's name ignoring ASCII case; every other table stays as it was |
| CleanupFacts.CandidatePaths | snakemake_grass.py:156-174 | the raster and vector paths `clean_output` compares with always exist, lie in the given location, and have '/'-free components |
| CleanupFacts.RecognisedPaths | snakemake_grass.py:172-175 | a path taken for a raster is the cellhd entry, and one taken for a vector the vector entry, of the mapset two levels above it, inside the location |
| CleanupFacts.RasterRecognised | snakemake_grass.py:172-173 | a raster path of the location with '@'-free names is in scope and taken for a raster |
| CleanupFacts.VectorRecognised | snakemake_grass.py:174-175 | a vector path of the location with '@'-free names is in scope and taken for a vector, never for a raster |
| CleanupFacts.RasterOutputCleaned | snakemake_grass.py:160-173 | a raster output of a location, cleaned with that location's path, is pruned and then has its ancillary files removed |
| CleanupFacts.VectorOutputCleaned | snakemake_grass.py:160-175 | a vector output of a location, cleaned with that location's path, is pruned and then removed with its table |
| CleanupFacts.OutOfScopeUntouched | snakemake_grass.py:160-162 | paths that fail the scope test change nothing and raise nothing |
| CleanupFacts.CleanAllAppend | snakemake_grass.py:160-175 | the paths are cleaned one after the other, and an error stops the rest |
| CleanupFacts.CleanPathWellFormed | snakemake_grass.py:162-175 | cleaning one path keeps the tree well formed |
| CleanupFacts.CleanAllWellFormed | snakemake_grass.py:160-175 | `clean_output` keeps the tree well formed, whether it finishes or stops with an error |
| CleanupFacts.TextAndListAgree | snakemake_grass.py:158 | a space-separated string of paths and the list of the same paths are cleaned alike |
| CleanupFacts.ScopeAdmitsSiblingLocation | snakemake_grass.py:162 | the string prefix test lets through a path of a sibling location whose name extends the location's name, although its components differ |

## Left out

- The str-pattern branches of `vectors` and `rasters` (snakemake_grass.py:68-70, 85-86) are not modelled. They call Snakemake's `expand`, which is library code; other arguments of kind str are not modelled either.
- `ancient` and `directory` are Snakemake library calls. They are modelled as tags on a path.
- `osp.realpath` at snakemake_grass.py:162 resolves symbolic links and relative paths. The model takes both path texts as already canonical.
- `osp.join` with an absolute later component, the file-system root, the empty path and repeated '/' are not modelled. The model reads a path text as its '/'-separated components.
- The operating system and SQLite are replaced by the abstract `Disk`: directories, files, and a set of table names per database file. Permission errors, a file that is not an SQLite database, and SQL text and identifier quoting are not modelled.
- Other exceptions a call could raise are not modelled. Each error is reported by its kind and path only, without the exception's arguments.
- The shell's parsing of the generated text, `test ! -d`, back-ticks and running `grass` are not modelled. Command substitution of `basename` and `dirname` is modelled by `MapNames.WordValue` on the words `path_to_map` writes.
- `Location.GrassLocation.Exec`: the positional arguments are taken as text already, so `map(str, args)` is not modelled.
- `Location.GrassLocation.Exec`: a keyword value that is not a list is given as the text `%s` writes for it.
- `Location.GrassLocation.Exec`: the keyword arguments are a sequence of pairs in call order.
- `LocationSource` writes the EPSG code as an int. Any other Python value there is left out.
- `MapNames.Index`: an index that is not an int is given as the text `%s` writes for it.
- `str.isspace` is modelled on ASCII: the characters 9 to 13, 28 to 31 and the space. The non-ASCII white space Python also splits on (such as U+0085, U+00A0 and U+2028) is left out.
- The dicts `vectors` and `rasters` return (snakemake_grass.py:74, 90) are Dafny maps. The insertion order of their keys is not modelled.
- A table name that SQLite cannot read as a bare identifier (a keyword, or a name with spaces) makes the `DROP TABLE` a syntax error. That case is not modelled.
- `GrassLocation.__call__` is an alias of `exec` and is not modelled separately.
- setup.py holds packaging metadata only and is not part of this model.
- `CleanupFacts.RasterOutputCleaned` and `CleanupFacts.VectorOutputCleaned` require map and mapset names without '@' and '/'. The source gives no guarantee for other names.
