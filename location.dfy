/**
 The `GrassLocation` class of `snakemake_grass.py`: where a GRASS location,
 its mapsets and their vector and raster maps live on disk, and the shell
 command that runs a GRASS module inside a mapset, creating the location and
 the mapset first when they are missing.

 A `GrassLocation` is a value: its constructor stores five fields and no
 method changes them.
 */
module Location {
  import opened Wrappers
  import opened Strings
  import opened Paths

  /** The exceptions the addressing layer raises. */
  datatype Error =
    | AttributeError  // `_first_or_raise` found no value that is not None
    | ValueError      // `vectors` / `rasters` got an argument of another type

  datatype Result<+T> = Ok(value: T) | Err(error: Error)

  /** A path as it is handed to Snakemake, either as it is or wrapped by
      Snakemake's `directory` or `ancient` flag (opaque tags here). */
  datatype Target = Plain(path: Path) | Directory(path: Path) | Ancient(path: Path)

  /** The arguments `vectors` and `rasters` accept: a list or tuple of map
      references, a dict from keys to references, or anything else. */
  datatype NameArgument =
    | NameList(refs: seq<string>)
    | NameDict(entries: map<string, string>)
    | Unsupported

  /** What `vectors` and `rasters` return for a list and for a dict. */
  datatype Resolved<T> = ResolvedList(items: seq<T>) | ResolvedDict(entries: map<string, T>)

  /** A keyword argument's value in `exec`: a list is comma-joined, anything
      else is written with `%s` (given here as that text). */
  datatype KeywordValue = ListValue(values: seq<string>) | TextValue(text: string)

  /** `_first_or_raise(*args)`: the first argument that is not None. */
  function FirstOrRaise<T>(args: seq<Option<T>>): (r: Result<T>)
    ensures r.Ok? <==> exists i :: 0 <= i < |args| && args[i].Some?
    ensures r.Ok? ==> exists i :: 0 <= i < |args| && args[i] == Some(r.value)
                                  && forall j :: 0 <= j < i ==> args[j].None?
    ensures r.Err? ==> r.error == AttributeError
  {
    if args == [] then Err(AttributeError)
    else if args[0].Some? then Ok(args[0].value)
    else
      var r := FirstOrRaise(args[1..]);
      assert forall i :: 1 <= i < |args| ==> args[i] == args[1..][i - 1];
      r
  }

  /** Resolves each reference of a list, left to right, stopping at the first
      error as the list comprehension does. */
  function ResolveAll<T>(refs: seq<string>, resolve: string -> Result<T>): Result<seq<T>>
  {
    if refs == [] then Ok([])
    else
      match resolve(refs[0])
      case Err(e) => Err(e)
      case Ok(x) =>
        match ResolveAll(refs[1..], resolve)
        case Err(e) => Err(e)
        case Ok(xs) => Ok([x] + xs)
  }

  /** A list resolves when every element resolves; the result has the same
      length and order, element i resolved from reference i. */
  lemma {:induction false} ResolveAllElementwise<T>(refs: seq<string>, resolve: string -> Result<T>)
    ensures ResolveAll(refs, resolve).Ok? <==> forall i :: 0 <= i < |refs| ==> resolve(refs[i]).Ok?
    ensures ResolveAll(refs, resolve).Ok? ==>
              |ResolveAll(refs, resolve).value| == |refs|
              && forall i :: 0 <= i < |refs| ==> resolve(refs[i]) == Ok(ResolveAll(refs, resolve).value[i])
    ensures ResolveAll(refs, resolve).Err? ==>
              exists i :: 0 <= i < |refs| && resolve(refs[i]) == Err(ResolveAll(refs, resolve).error)
  {
    if refs != [] {
      ResolveAllElementwise(refs[1..], resolve);
      assert forall i :: 1 <= i < |refs| ==> refs[i] == refs[1..][i - 1];
      var rest := ResolveAll(refs[1..], resolve);
      if resolve(refs[0]).Ok? && rest.Ok? {
        assert forall i :: 1 <= i < |refs| ==> ResolveAll(refs, resolve).value[i] == rest.value[i - 1];
      }
      if resolve(refs[0]).Ok? && rest.Err? {
        var j :| 0 <= j < |refs[1..]| && resolve(refs[1..][j]) == Err(rest.error);
        assert resolve(refs[j + 1]) == Err(rest.error);
      }
    }
  }

  /** Dispatch of `vectors` / `rasters` on the argument's kind. */
  function ResolveArgument<T>(names: NameArgument, resolve: string -> Result<T>): Result<Resolved<T>>
  {
    match names
    case NameList(refs) =>
      (match ResolveAll(refs, resolve)
       case Ok(xs) => Ok(ResolvedList(xs))
       case Err(e) => Err(e))
    case NameDict(m) =>
      if forall k :: k in m ==> resolve(m[k]).Ok?
      then Ok(ResolvedDict(map k | k in m :: resolve(m[k]).value))
      else Err(AttributeError)
    case Unsupported => Err(ValueError)
  }

  /** Rendering of one keyword argument: ` k=v`, a list value comma-joined. */
  function Keyword(kv: (string, KeywordValue)): string
  {
    " " + kv.0 + "=" + (match kv.1
                        case ListValue(vs) => Join(vs, ',')
                        case TextValue(t) => t)
  }

  /** The keyword arguments in their order, each rendered by `Keyword`. */
  function KeywordText(kwargs: seq<(string, KeywordValue)>): string
    decreases |kwargs|
  {
    if kwargs == [] then ""
    else KeywordText(kwargs[..|kwargs| - 1]) + Keyword(kwargs[|kwargs| - 1])
  }

  /** The keyword text of two runs of keyword arguments is the concatenation
      of their texts: each argument is rendered on its own, in order. */
  lemma {:induction false} KeywordTextAppend(a: seq<(string, KeywordValue)>, b: seq<(string, KeywordValue)>)
    ensures KeywordText(a + b) == KeywordText(a) + KeywordText(b)
    decreases |b|
  {
    if b == [] {
      assert a + b == a;
    } else {
      var b' := b[..|b| - 1];
      KeywordTextAppend(a, b');
      assert (a + b)[..|a + b| - 1] == a + b';
      assert (a + b)[|a + b| - 1] == b[|b| - 1];
    }
  }

  /** A list-valued keyword argument reaches the GRASS module as `k=v1,v2,...`,
      which splits back on ',' into the same values when none contains ','. */
  lemma ListKeywordRoundTrip(k: string, vs: seq<string>)
    requires |vs| >= 1 && forall i :: 0 <= i < |vs| ==> ',' !in vs[i]
    ensures Keyword((k, ListValue(vs))) == " " + k + "=" + Join(vs, ',')
    ensures Split(Join(vs, ','), ',') == vs
  {
    SplitJoin(vs, ',');
  }

  /** The command line given to `grass --exec`: the command, a space, the
      positional arguments space-joined, then the keyword arguments. */
  function CommandLine(command: string, args: seq<string>, kwargs: seq<(string, KeywordValue)>): string
  {
    command + " " + Join(args, ' ') + KeywordText(kwargs)
  }

  /** The run fragment of `exec`: GRASS started in the mapset, with `-c`
      when the mapset directory does not exist yet. */
  function MapsetRun(msPath: Path, command: string): string
  {
    "grass `test ! -d " + Render(msPath) + " && echo -c` " + Render(msPath)
      + " --exec " + command + " ; "
  }

  datatype GrassLocation = GrassLocation(
    database: Path,
    locationName: string,
    defaultMapset: Option<string>,
    epsg: Option<int>,
    locationFile: Option<string>)
  {
    /** `location_path` */
    function LocationPath(): Path
    {
      database + [locationName]
    }

    /** `location`: the projection file of the PERMANENT mapset. */
    function ProjectionFile(): Path
    {
      LocationPath() + ["PERMANENT", "PROJ_INFO"]
    }

    /** `mapset_path(name)` */
    function MapsetPath(name: Option<string>): Result<Path>
    {
      match FirstOrRaise([name, defaultMapset])
      case Ok(ms) => Ok(LocationPath() + [ms])
      case Err(e) => Err(e)
    }

    /** `mapset(name, output)`: the mapset's WIND file, flagged `ancient`
        when it is not an output. */
    function Mapset(name: Option<string>, output: bool): Result<Target>
    {
      match MapsetPath(name)
      case Ok(p) => Ok(if output then Plain(p + ["WIND"]) else Ancient(p + ["WIND"]))
      case Err(e) => Err(e)
    }

    /** `map_mapset(name)`: the map name and its mapset. */
    function MapMapset(name: string): Result<(string, string)>
    {
      var nm := Split(name, '@');
      if |nm| == 2 then Ok((nm[0], nm[1]))
      else
        match FirstOrRaise([defaultMapset])
        case Ok(ms) => Ok((nm[0], ms))
        case Err(e) => Err(e)
    }

    /** `vector(name, output)`: the vector's directory, flagged `directory`
        when it is an output. */
    function Vector(name: string, output: bool): Result<Target>
    {
      match MapMapset(name)
      case Ok(r) =>
        var path := LocationPath() + [r.1, "vector", r.0];
        Ok(if output then Directory(path) else Plain(path))
      case Err(e) => Err(e)
    }

    /** `raster(name)`: the raster's cell header file. */
    function Raster(name: string): Result<Path>
    {
      match MapMapset(name)
      case Ok(r) => Ok(LocationPath() + [r.1, "cellhd", r.0])
      case Err(e) => Err(e)
    }

    /** `vectors(namespattern, output)` for a list, tuple or dict argument. */
    function Vectors(names: NameArgument, output: bool): Result<Resolved<Target>>
    {
      ResolveArgument(names, ref => Vector(ref, output))
    }

    /** `rasters(namespattern)` for a list, tuple or dict argument. */
    function Rasters(names: NameArgument): Result<Resolved<Path>>
    {
      ResolveArgument(names, ref => Raster(ref))
    }

    /** The method `clean_output(paths)`: a shell statement that runs the
        module-level `clean_output` on this location and the given paths. */
    function CleanOutputCommand(paths: string): string
    {
      "python -c 'import snakemake_grass; snakemake_grass.clean_output(\""
        + Render(LocationPath()) + "\", \"" + paths + "\")'; "
    }

    /** Truth of `self.location_file or self.epsg`. */
    predicate CreatesLocation()
    {
      (locationFile.Some? && locationFile.value != "") || (epsg.Some? && epsg.value != 0)
    }

    /** `self.location_file or ('EPSG:%s' % self.epsg)` */
    function LocationSource(): string
    {
      if locationFile.Some? && locationFile.value != "" then locationFile.value
      else "EPSG:" + (match epsg case Some(e) => IntText(e) case None => "None")
    }

    /** The location-creation guard of `exec`. */
    function LocationGuard(): string
    {
      if CreatesLocation()
      then "test ! -d " + Render(LocationPath()) + " && grass -e -c " + LocationSource()
             + " " + Render(LocationPath()) + "; "
      else ""
    }

    /** The string `exec` returns, or the exception it raises. */
    function Invocation(command: string, mapset: Option<string>, clean: bool,
                        args: seq<string>, kwargs: seq<(string, KeywordValue)>): Result<string>
    {
      match MapsetPath(mapset)
      case Err(e) => Err(e)
      case Ok(ms) =>
        Ok((if clean then CleanOutputCommand("{output}") else "") + LocationGuard()
           + "GRASS_OVERWRITE=1 " + MapsetRun(ms, CommandLine(command, args, kwargs)))
    }

    /** `exec(command, mapset, clean, *args, **kwargs)`: the keyword
        arguments are appended to the command one by one. */
    method Exec(command: string, mapset: Option<string>, clean: bool,
                args: seq<string>, kwargs: seq<(string, KeywordValue)>) returns (r: Result<string>)
      ensures r == Invocation(command, mapset, clean, args, kwargs)
    {
      var cmd := command + " " + Join(args, ' ');
      var i := 0;
      while i < |kwargs|
        invariant 0 <= i <= |kwargs|
        invariant cmd == command + " " + Join(args, ' ') + KeywordText(kwargs[..i])
      {
        assert kwargs[..i + 1][..i] == kwargs[..i];
        cmd := cmd + Keyword(kwargs[i]);
        i := i + 1;
      }
      assert kwargs[..|kwargs|] == kwargs;
      var variables := "GRASS_OVERWRITE=1 ";
      var cf := if clean then CleanOutputCommand("{output}") else "";
      var clocation := LocationGuard();
      var msPath := MapsetPath(mapset);
      if msPath.Err? {
        return Err(msPath.error);
      }
      var gcmd := MapsetRun(msPath.value, cmd);
      r := Ok(cf + clocation + variables + gcmd);
    }
  }

  /** The location `clean_output(pathtolocation, ...)` builds: database
      `dirname(pathtolocation)`, name `basename(pathtolocation)`, and the
      constructor's default mapset PERMANENT. */
  function CleanupLocation(pathToLocation: Path): GrassLocation
  {
    GrassLocation(Dirname(pathToLocation), Basename(pathToLocation), Some("PERMANENT"), None, None)
  }
}

/** Properties of the addressing layer and of the generated command. */
module LocationFacts {
  import opened Wrappers
  import opened Strings
  import opened Paths
  import opened Location

  /** `mapset_path(name)` is the location path extended by `name`, or by the
      default mapset when `name` is None; it raises when both are None. */
  lemma MapsetPathChoice(g: GrassLocation, name: Option<string>)
    ensures g.MapsetPath(name).Ok? <==> name.Some? || g.defaultMapset.Some?
    ensures g.MapsetPath(name).Err? ==> g.MapsetPath(name).error == AttributeError
    ensures name.Some? ==> g.MapsetPath(name) == Ok(g.LocationPath() + [name.value])
    ensures name.None? && g.defaultMapset.Some? ==>
              g.MapsetPath(name) == Ok(g.LocationPath() + [g.defaultMapset.value])
  {
    var args := [name, g.defaultMapset];
    if name.Some? {
      assert args[0].Some?;
    } else if g.defaultMapset.Some? {
      assert args[1].Some?;
    }
  }

  /** `mapset(name, output)` is the WIND file of the mapset `mapset_path`
      chooses, flagged `ancient` exactly when it is not an output; it raises
      exactly when `mapset_path` does. */
  lemma MapsetWind(g: GrassLocation, name: Option<string>, output: bool)
    ensures g.Mapset(name, output).Ok? <==> g.MapsetPath(name).Ok?
    ensures g.Mapset(name, output).Err? ==> g.Mapset(name, output).error == AttributeError
    ensures g.Mapset(name, output).Ok? ==>
              && g.Mapset(name, output).value.path == g.MapsetPath(name).value + ["WIND"]
              && (g.Mapset(name, output).value.Ancient? <==> !output)
              && (g.Mapset(name, output).value.Plain? <==> output)
  {
    MapsetPathChoice(g, name);
  }

  /** `location` is the PROJ_INFO file of the PERMANENT mapset, whatever the
      default mapset. */
  lemma ProjectionFileOfPermanent(g: GrassLocation)
    ensures g.ProjectionFile() == g.MapsetPath(Some("PERMANENT")).value + ["PROJ_INFO"]
    ensures g.ProjectionFile()[..|g.LocationPath()|] == g.LocationPath()
  {
    MapsetPathChoice(g, Some("PERMANENT"));
  }

  /** The first part of a split on '@' is the longest prefix without '@'. */
  lemma FirstPartIsPrefix(s: string)
    ensures Split(s, '@')[0] <= s
    ensures '@' !in Split(s, '@')[0]
    ensures |Split(s, '@')[0]| == |s| || s[|Split(s, '@')[0]|] == '@'
  {
    var parts := Split(s, '@');
    JoinSplit(s, '@');
    if |parts| > 1 {
      assert s == parts[0] + ['@'] + Join(parts[1..], '@');
    }
  }

  /** `map_mapset(ref)`: a reference with exactly one '@' is `name@mapset`;
      any other reference names the part before its first '@' (the whole
      reference when it has none) in the default mapset, and raises
      AttributeError when there is no default. */
  lemma MapMapsetCases(g: GrassLocation, ref: string)
    ensures Count(ref, '@') == 1 ==>
              && g.MapMapset(ref).Ok?
              && ref == g.MapMapset(ref).value.0 + "@" + g.MapMapset(ref).value.1
              && '@' !in g.MapMapset(ref).value.0 && '@' !in g.MapMapset(ref).value.1
    ensures Count(ref, '@') != 1 ==>
              && (g.MapMapset(ref).Ok? <==> g.defaultMapset.Some?)
              && (g.MapMapset(ref).Ok? ==> g.MapMapset(ref).value.1 == g.defaultMapset.value)
    ensures Count(ref, '@') == 0 && g.defaultMapset.Some? ==> g.MapMapset(ref).value.0 == ref
    ensures g.MapMapset(ref).Ok? ==>
              && g.MapMapset(ref).value.0 <= ref
              && '@' !in g.MapMapset(ref).value.0
              && (|g.MapMapset(ref).value.0| == |ref| || ref[|g.MapMapset(ref).value.0|] == '@')
    ensures g.MapMapset(ref).Err? ==> g.MapMapset(ref).error == AttributeError
  {
    var parts := Split(ref, '@');
    JoinSplit(ref, '@');
    FirstPartIsPrefix(ref);
    if |parts| == 2 {
      assert parts[1..] == [parts[1]];
    }
    if Count(ref, '@') == 0 {
      SplitFree(ref, '@');
    }
  }

  /** A name and a mapset without '@' make the reference `name@mapset`,
      which `map_mapset` splits back into the same two. */
  lemma QualifiedReference(g: GrassLocation, name: string, mapset: string)
    requires '@' !in name && '@' !in mapset
    ensures g.MapMapset(name + "@" + mapset) == Ok((name, mapset))
  {
    SplitJoin([name, mapset], '@');
    assert Join([name, mapset], '@') == name + "@" + mapset;
  }

  /** Resolving the reference `name@mapset` rebuilt from a resolution gives
      that resolution again. */
  lemma {:induction false} ReferenceRoundTrip(g: GrassLocation, ref: string)
    requires g.MapMapset(ref).Ok?
    ensures g.MapMapset(g.MapMapset(ref).value.0 + "@" + g.MapMapset(ref).value.1) == g.MapMapset(ref)
  {
    var (nm, ms) := g.MapMapset(ref).value;
    MapMapsetCases(g, ref);
    if '@' in ms {
      // The mapset is the default one; the rebuilt reference has two or
      // more '@' and falls back to the same default.
      var s := nm + "@" + ms;
      assert Count(ref, '@') != 1;
      SplitAfter(nm, ms, '@');
      assert s == nm + ['@'] + ms;
      var rest := Split(ms, '@');
      assert |rest| >= 2;
      MapMapsetCases(g, s);
    } else {
      QualifiedReference(g, nm, ms);
    }
  }

  /** The map's identity is recoverable from its raster path by fixed
      numbers of parent steps: the base name is the map, two levels up is
      the mapset, three levels up is the location. */
  predicate AddressedAs(p: Path, loc: Path, mapset: string, kind: string, name: string)
  {
    && Basename(p) == name
    && Basename(Ancestor(p, 1)) == kind
    && Basename(Ancestor(p, 2)) == mapset
    && Ancestor(p, 3) == loc
    && p == loc + [mapset, kind, name]
  }

  lemma AncestorsOfThree(loc: Path, a: string, b: string, c: string)
    ensures AddressedAs(loc + [a, b, c], loc, a, b, c)
  {
    var p := loc + [a, b, c];
    assert Ancestor(p, 1) == loc + [a, b];
    assert Ancestor(p, 2) == loc + [a];
    assert Ancestor(p, 3) == loc;
  }

  /** `raster(ref)` and `vector(ref, output)` put the map in the mapset
      `map_mapset` resolves, under `cellhd` and `vector`; they fail exactly
      when `map_mapset` does.  `output` changes only the flag on the vector
      path, never the path, and a raster and a vector path never coincide. */
  lemma ResourcePaths(g: GrassLocation, ref: string, output: bool)
    ensures g.Raster(ref).Ok? <==> g.MapMapset(ref).Ok?
    ensures g.Vector(ref, output).Ok? <==> g.MapMapset(ref).Ok?
    ensures g.MapMapset(ref).Ok? ==>
              AddressedAs(g.Raster(ref).value, g.LocationPath(),
                          g.MapMapset(ref).value.1, "cellhd", g.MapMapset(ref).value.0)
    ensures g.MapMapset(ref).Ok? ==>
              AddressedAs(g.Vector(ref, output).value.path, g.LocationPath(),
                          g.MapMapset(ref).value.1, "vector", g.MapMapset(ref).value.0)
    ensures g.MapMapset(ref).Ok? ==>
              && g.Vector(ref, output).value.path == g.Vector(ref, !output).value.path
              && (g.Vector(ref, output).value.Directory? <==> output)
              && (g.Vector(ref, output).value.Plain? <==> !output)
              && g.Raster(ref).value != g.Vector(ref, output).value.path
    ensures g.MapMapset(ref).Ok? ==>
              g.Raster(ref).value == g.MapsetPath(Some(g.MapMapset(ref).value.1)).value
                                     + ["cellhd", g.MapMapset(ref).value.0]
  {
    if g.MapMapset(ref).Ok? {
      var (nm, ms) := g.MapMapset(ref).value;
      AncestorsOfThree(g.LocationPath(), ms, "cellhd", nm);
      AncestorsOfThree(g.LocationPath(), ms, "vector", nm);
      var r := g.Raster(ref).value;
      var v := g.Vector(ref, output).value.path;
      assert r[|g.LocationPath()| + 1] == "cellhd" != "vector" == v[|g.LocationPath()| + 1];
    }
  }

  /** `raster` and `vector` raise only when the reference does not have
      exactly one '@' and there is no default mapset. */
  lemma ResourceErrors(g: GrassLocation, ref: string, output: bool)
    ensures g.Raster(ref).Err? <==> g.defaultMapset.None? && Count(ref, '@') != 1
    ensures g.Vector(ref, output).Err? <==> g.defaultMapset.None? && Count(ref, '@') != 1
    ensures g.Raster(ref).Err? ==> g.Raster(ref).error == AttributeError
    ensures g.Vector(ref, output).Err? ==> g.Vector(ref, output).error == AttributeError
  {
    MapMapsetCases(g, ref);
  }

  /** `rasters`: a list gives a list of the same length and order, element i
      resolved from reference i; a dict gives a dict with the same keys,
      each value resolved; any other argument raises ValueError. A list or
      dict raises exactly when one of its references does not resolve. */
  lemma RastersResolve(g: GrassLocation, names: NameArgument)
    ensures names.Unsupported? ==> g.Rasters(names) == Err(ValueError)
    ensures names.NameList? ==>
              && (g.Rasters(names).Ok? <==>
                    forall i :: 0 <= i < |names.refs| ==> g.Raster(names.refs[i]).Ok?)
              && (g.Rasters(names).Ok? ==>
                    && g.Rasters(names).value.ResolvedList?
                    && |g.Rasters(names).value.items| == |names.refs|
                    && forall i :: 0 <= i < |names.refs| ==>
                         g.Raster(names.refs[i]) == Ok(g.Rasters(names).value.items[i]))
    ensures names.NameDict? ==>
              && (g.Rasters(names).Ok? <==>
                    forall k :: k in names.entries ==> g.Raster(names.entries[k]).Ok?)
              && (g.Rasters(names).Ok? ==>
                    && g.Rasters(names).value.ResolvedDict?
                    && g.Rasters(names).value.entries.Keys == names.entries.Keys
                    && forall k :: k in names.entries ==>
                         g.Raster(names.entries[k]) == Ok(g.Rasters(names).value.entries[k]))
    ensures g.Rasters(names).Err? && !names.Unsupported? ==> g.Rasters(names).error == AttributeError
  {
    var resolve := ref => g.Raster(ref);
    if names.NameList? {
      ResolveAllElementwise(names.refs, resolve);
      if ResolveAll(names.refs, resolve).Err? {
        var i :| 0 <= i < |names.refs| && resolve(names.refs[i]) == Err(ResolveAll(names.refs, resolve).error);
        ResourceErrors(g, names.refs[i], false);
      }
    }
  }

  /** `vectors(names, output)`: as `rasters`, with each element the vector
      path flagged `directory` exactly when `output` is true. */
  lemma VectorsResolve(g: GrassLocation, names: NameArgument, output: bool)
    ensures names.Unsupported? ==> g.Vectors(names, output) == Err(ValueError)
    ensures names.NameList? ==>
              && (g.Vectors(names, output).Ok? <==>
                    forall i :: 0 <= i < |names.refs| ==> g.Vector(names.refs[i], output).Ok?)
              && (g.Vectors(names, output).Ok? ==>
                    && g.Vectors(names, output).value.ResolvedList?
                    && |g.Vectors(names, output).value.items| == |names.refs|
                    && forall i :: 0 <= i < |names.refs| ==>
                         g.Vector(names.refs[i], output) == Ok(g.Vectors(names, output).value.items[i]))
    ensures names.NameDict? ==>
              && (g.Vectors(names, output).Ok? <==>
                    forall k :: k in names.entries ==> g.Vector(names.entries[k], output).Ok?)
              && (g.Vectors(names, output).Ok? ==>
                    && g.Vectors(names, output).value.ResolvedDict?
                    && g.Vectors(names, output).value.entries.Keys == names.entries.Keys
                    && forall k :: k in names.entries ==>
                         g.Vector(names.entries[k], output) == Ok(g.Vectors(names, output).value.entries[k]))
    ensures g.Vectors(names, output).Err? && !names.Unsupported? ==>
              g.Vectors(names, output).error == AttributeError
  {
    var resolve := ref => g.Vector(ref, output);
    if names.NameList? {
      ResolveAllElementwise(names.refs, resolve);
      if ResolveAll(names.refs, resolve).Err? {
        var i :| 0 <= i < |names.refs| && resolve(names.refs[i]) == Err(ResolveAll(names.refs, resolve).error);
        ResourceErrors(g, names.refs[i], output);
      }
    }
  }

  /** The string `exec` returns: the cleanup call when `clean` is true, then
      the location guard, the overwrite variable and the GRASS run in the
      resolved mapset; it raises exactly when `mapset_path(mapset)` does. */
  lemma InvocationLayout(g: GrassLocation, command: string, mapset: Option<string>, clean: bool,
                         args: seq<string>, kwargs: seq<(string, KeywordValue)>)
    ensures g.Invocation(command, mapset, clean, args, kwargs).Ok? <==> mapset.Some? || g.defaultMapset.Some?
    ensures g.Invocation(command, mapset, clean, args, kwargs).Ok? ==>
              g.Invocation(command, mapset, clean, args, kwargs).value
              == (if clean then g.CleanOutputCommand("{output}") else "") + g.LocationGuard()
                 + "GRASS_OVERWRITE=1 "
                 + MapsetRun(g.MapsetPath(mapset).value, CommandLine(command, args, kwargs))
    ensures g.Invocation(command, mapset, clean, args, kwargs).Err? ==>
              g.Invocation(command, mapset, clean, args, kwargs).error == AttributeError
  {
    MapsetPathChoice(g, mapset);
  }

  /** The cleanup fragment is empty exactly when `clean` is false, the
      location guard is empty exactly when neither a location file nor an
      EPSG code is set, and the guard bootstraps the location from the file
      in preference to the EPSG code. */
  lemma FragmentsPresence(g: GrassLocation)
    ensures g.CleanOutputCommand("{output}") != ""
    ensures g.LocationGuard() == "" <==> !g.CreatesLocation()
    ensures g.CreatesLocation() && g.locationFile.Some? && g.locationFile.value != "" ==>
              g.LocationSource() == g.locationFile.value
    ensures g.CreatesLocation() && !(g.locationFile.Some? && g.locationFile.value != "") ==>
              g.LocationSource() == "EPSG:" + IntText(g.epsg.value)
  {
  }

  /** The keyword arguments appear one after the other, in their order. */
  lemma {:induction false} KeywordTextInOrder(kv: (string, KeywordValue), rest: seq<(string, KeywordValue)>)
    ensures KeywordText([kv] + rest) == Keyword(kv) + KeywordText(rest)
  {
    KeywordTextAppend([kv], rest);
    assert [kv][..0] == [];
  }

  /** The inline cleanup call names this location's path; read back by
      `clean_output`, that path gives the same location again. */
  lemma CleanupSeesSameLocation(g: GrassLocation)
    requires Canonical(g.LocationPath())
    ensures CleanupLocation(ParsePath(Render(g.LocationPath()))).LocationPath() == g.LocationPath()
  {
    RenderParse("", g.LocationPath());
  }

  /** The worked example of a dict argument: the keys are kept and each
      value resolves in its own mapset. */
  lemma RastersDictExample(g: GrassLocation)
    requires g.defaultMapset == Some("PERMANENT")
    ensures g.Rasters(NameDict(map["a" := "x", "b" := "y@m"]))
            == Ok(ResolvedDict(map["a" := g.LocationPath() + ["PERMANENT", "cellhd", "x"],
                                   "b" := g.LocationPath() + ["m", "cellhd", "y"]]))
  {
    SplitFree("x", '@');
    QualifiedReference(g, "y", "m");
    assert "y" + "@" + "m" == "y@m";
    var m := map["a" := "x", "b" := "y@m"];
    assert g.Raster(m["a"]) == Ok(g.LocationPath() + ["PERMANENT", "cellhd", "x"]);
    assert g.Raster(m["b"]) == Ok(g.LocationPath() + ["m", "cellhd", "y"]);
    var resolve := ref => g.Raster(ref);
    assert forall k :: k in m ==> resolve(m[k]).Ok?;
    var got := map k | k in m :: resolve(m[k]).value;
    var want := map["a" := g.LocationPath() + ["PERMANENT", "cellhd", "x"],
                    "b" := g.LocationPath() + ["m", "cellhd", "y"]];
    assert got.Keys == want.Keys;
    assert got["a"] == want["a"] && got["b"] == want["b"];
    assert got == want;
    assert g.Rasters(NameDict(m)) == ResolveArgument(NameDict(m), resolve);
  }
}
