/**
 The module-level helpers `path_to_map`, `input_to_map` and `output_to_map`:
 shell text that, once Snakemake has put a concrete path in place of the
 placeholder, recovers a GRASS map reference from that path. The shell's
 later evaluation of `$(basename ...)` and `$(dirname ...)` is stated by
 `ShellMapName` in terms of the path functions.
 */
module MapNames {
  import opened Wrappers
  import opened Strings
  import opened Paths
  import opened Location
  import opened LocationFacts

  /** The index of an input or output placeholder: an int, or any other
      value, given here as its `%s` text. */
  datatype Index = IntIndex(n: int) | OtherIndex(text: string)

  /** `path_to_map(path, mapset)` */
  function PathToMap(path: string, mapset: bool): string
  {
    var name := "$(basename " + path + ")";
    var ms := if mapset then "@$(basename $(dirname $(dirname " + path + ")))" else "";
    name + ms
  }

  /** The index part of a placeholder: `[i]` for an int, `.i` otherwise,
      nothing for None. */
  function IndexSuffix(index: Option<Index>): (s: string)
    ensures index.None? <==> s == ""
  {
    match index
    case None => ""
    case Some(IntIndex(n)) => "[" + IntText(n) + "]"
    case Some(OtherIndex(t)) => "." + t
  }

  /** The Snakemake placeholder `{input...}` or `{output...}`. */
  function Placeholder(kind: string, index: Option<Index>): string
  {
    "{" + kind + IndexSuffix(index) + "}"
  }

  /** `input_to_map(index)` */
  function InputToMap(index: Option<Index>): string
  {
    PathToMap(Placeholder("input", index), true)
  }

  /** `output_to_map(index)` */
  function OutputToMap(index: Option<Index>): string
  {
    PathToMap(Placeholder("output", index), false)
  }

  /** The map name the shell computes from `path_to_map(P, mapset)` once `P`
      stands for the path `p`: the base name, and with `mapset` an '@' and
      the base name two directories up. */
  function ShellMapName(p: Path, mapset: bool): string
  {
    Basename(p) + (if mapset then "@" + Basename(Ancestor(p, 2)) else "")
  }

  /**
   A shell word built from literal text and command substitutions of
   `basename` and `dirname` applied to the placeholder path. `WordText` is
   the text of the word with `path` written for the placeholder; `WordValue`
   is what the shell expands it to once the placeholder stands for `p`.
   */
  datatype PathWord = PathArg | DirnameOf(inner: PathWord)
  datatype Piece = Literal(text: string) | BasenameOf(arg: PathWord)

  function PathWordText(w: PathWord, path: string): string
  {
    match w
    case PathArg => path
    case DirnameOf(v) => "$(dirname " + PathWordText(v, path) + ")"
  }

  function PathWordValue(w: PathWord, p: Path): Path
  {
    match w
    case PathArg => p
    case DirnameOf(v) => Dirname(PathWordValue(v, p))
  }

  function WordText(word: seq<Piece>, path: string): string
  {
    if word == [] then ""
    else
      (match word[0]
       case Literal(t) => t
       case BasenameOf(w) => "$(basename " + PathWordText(w, path) + ")")
      + WordText(word[1..], path)
  }

  function WordValue(word: seq<Piece>, p: Path): string
  {
    if word == [] then ""
    else
      (match word[0]
       case Literal(t) => t
       case BasenameOf(w) => Basename(PathWordValue(w, p)))
      + WordValue(word[1..], p)
  }

  /** The word for a map name: the base name of the path, then with `mapset`
      an '@' and the base name of the path's grandparent directory. */
  function MapWord(mapset: bool): seq<Piece>
  {
    [BasenameOf(PathArg)]
      + (if mapset then [Literal("@"), BasenameOf(DirnameOf(DirnameOf(PathArg)))] else [])
  }

  /** `path_to_map(P, mapset)` is the text of the map-name word with `P` for
      the placeholder, and the shell expands that word at path `p` to
      `ShellMapName(p, mapset)`. */
  lemma PathToMapIsMapWord(path: string, p: Path, mapset: bool)
    ensures PathToMap(path, mapset) == WordText(MapWord(mapset), path)
    ensures WordValue(MapWord(mapset), p) == ShellMapName(p, mapset)
  {
    var up := BasenameOf(DirnameOf(DirnameOf(PathArg)));
    var name := "$(basename " + path + ")";
    var word := MapWord(mapset);
    assert WordText([BasenameOf(PathArg)], path) == name by {
      assert [BasenameOf(PathArg)][1..] == [];
    }
    assert WordValue([BasenameOf(PathArg)], p) == Basename(p) by {
      assert [BasenameOf(PathArg)][1..] == [];
    }
    if mapset {
      UpperText(path);
      UpperValue(p);
      assert word == [BasenameOf(PathArg)] + [Literal("@"), up];
      assert word[1..] == [Literal("@"), up] && [Literal("@"), up][1..] == [up];
    } else {
      assert word == [BasenameOf(PathArg)];
      assert name + "" == name;
    }
  }

  /** The mapset part `path_to_map` writes, taken apart into its command
      substitutions. */
  lemma MapsetPartPieces(path: string)
    ensures "@$(basename $(dirname $(dirname " + path + ")))"
            == "@" + ("$(basename " + ("$(dirname " + ("$(dirname " + path + ")") + ")") + ")")
  {
    var a, b, c := "$(basename ", "$(dirname ", "$(dirname ";
    assert "@$(basename $(dirname $(dirname " == "@" + a + b + c;
    assert ")))" == ")" + ")" + ")";
  }

  /** The text and the value of `@$(basename $(dirname $(dirname P)))`. */
  lemma UpperText(path: string)
    ensures WordText([Literal("@"), BasenameOf(DirnameOf(DirnameOf(PathArg)))], path)
            == "@$(basename $(dirname $(dirname " + path + ")))"
  {
    var up := BasenameOf(DirnameOf(DirnameOf(PathArg)));
    assert [Literal("@"), up][1..] == [up] && [up][1..] == [];
    assert PathWordText(DirnameOf(PathArg), path) == "$(dirname " + path + ")";
    var inner := "$(dirname " + ("$(dirname " + path + ")") + ")";
    assert PathWordText(up.arg, path) == inner;
    assert WordText([up], path) == "$(basename " + inner + ")" + "";
    MapsetPartPieces(path);
  }

  lemma UpperValue(p: Path)
    ensures WordValue([Literal("@"), BasenameOf(DirnameOf(DirnameOf(PathArg)))], p)
            == "@" + Basename(Ancestor(p, 2))
  {
    var up := BasenameOf(DirnameOf(DirnameOf(PathArg)));
    assert [Literal("@"), up][1..] == [up] && [up][1..] == [];
    assert PathWordValue(DirnameOf(PathArg), p) == Dirname(p);
    assert PathWordValue(up.arg, p) == Dirname(Dirname(p)) == Ancestor(p, 2);
    assert WordValue([up], p) == Basename(Ancestor(p, 2)) + "";
  }

  /** Text around `x` that holds no '@' adds none. */
  lemma CountWrapped(before: string, x: string, after: string)
    requires '@' !in before && '@' !in after
    ensures Count(before + x + after, '@') == Count(x, '@')
  {
    CountAppend(before + x, after, '@');
    CountAppend(before, x, '@');
  }

  lemma MapsetPartSplit(path: string)
    ensures "@$(basename $(dirname $(dirname " + path + ")))"
            == "@" + ("$(basename $(dirname $(dirname " + path + ")))")
  {
    assert "@$(basename $(dirname $(dirname " == "@" + "$(basename $(dirname $(dirname ";
  }

  /** With the mapset, `path_to_map` writes one '@' of its own besides the
      two copies of the path; without it, none. */
  lemma PathToMapQualifier(path: string, mapset: bool)
    ensures Count(PathToMap(path, mapset), '@') ==
            if mapset then 2 * Count(path, '@') + 1 else Count(path, '@')
  {
    var name := "$(basename " + path + ")";
    CountWrapped("$(basename ", path, ")");
    if mapset {
      var ms := "@$(basename $(dirname $(dirname " + path + ")))";
      var rest := "$(basename $(dirname $(dirname " + path + ")))";
      CountWrapped("$(basename $(dirname $(dirname ", path, ")))");
      MapsetPartSplit(path);
      CountAppend("@", rest, '@');
      CountAppend(name, ms, '@');
    } else {
      assert PathToMap(path, mapset) == name + "";
      assert name + "" == name;
    }
  }

  /** The index text holds no '@' (always so for an int index). */
  predicate AtFree(index: Option<Index>)
  {
    index.Some? && index.value.OtherIndex? ==> '@' !in index.value.text
  }

  lemma PlaceholderAtFree(kind: string, index: Option<Index>)
    requires '@' !in kind && AtFree(index)
    ensures '@' !in Placeholder(kind, index)
  {
    var x := IndexSuffix(index);
    if index.Some? && index.value.IntIndex? {
      var t := IntText(index.value.n);
      assert forall i :: 0 <= i < |t| ==> t[i] != '@';
      assert '@' !in t;
    }
    assert '@' !in x;
  }

  /** For an index whose text has no '@', the name `input_to_map` writes
      carries exactly one mapset qualifier and the one `output_to_map` writes
      none, so the first is read as `map@mapset` and the second as a map of
      the current mapset. */
  lemma MapsetQualifier(index: Option<Index>)
    requires AtFree(index)
    ensures Count(InputToMap(index), '@') == 1
    ensures Count(OutputToMap(index), '@') == 0
  {
    PlaceholderAtFree("input", index);
    PlaceholderAtFree("output", index);
    PathToMapQualifier(Placeholder("input", index), true);
    PathToMapQualifier(Placeholder("output", index), false);
  }

  lemma IndexSuffixInjective(a: Option<Index>, b: Option<Index>)
    requires IndexSuffix(a) == IndexSuffix(b)
    ensures a == b
  {
    var s := IndexSuffix(a);
    if a.Some? && b.Some? {
      match a.value
      case IntIndex(n) =>
        assert s[0] == '[';
        var m := b.value.n;
        assert IntText(n) == s[1..|s| - 1] == IntText(m);
        IntTextValue(n, m);
      case OtherIndex(t) =>
        assert s[0] == '.';
        assert t == s[1..] == b.value.text;
    }
  }

  /** Distinct indexes give distinct placeholders, so each placeholder names
      one input or output of the rule. */
  lemma PlaceholderInjective(kind: string, a: Option<Index>, b: Option<Index>)
    ensures Placeholder(kind, a) == Placeholder(kind, b) ==> a == b
  {
    if Placeholder(kind, a) == Placeholder(kind, b) {
      var x := Placeholder(kind, a);
      assert IndexSuffix(a) == x[|kind| + 1..|x| - 1] == IndexSuffix(b);
      IndexSuffixInjective(a, b);
    }
  }

  /** For a path made by `raster` or `vector`, the shell name with the
      mapset resolves, with the same location, to the map and mapset the
      path was made from, and the name without the mapset is the map. */
  lemma ShellNameRecoversMap(g: GrassLocation, ref: string, p: Path)
    requires g.MapMapset(ref).Ok?
    requires p == g.Raster(ref).value || p == g.Vector(ref, true).value.path
    ensures g.MapMapset(ShellMapName(p, true)) == g.MapMapset(ref)
    ensures ShellMapName(p, false) == g.MapMapset(ref).value.0
  {
    ResourcePaths(g, ref, true);
    ReferenceRoundTrip(g, ref);
    var (nm, ms) := g.MapMapset(ref).value;
    assert Basename(p) == nm && Basename(Ancestor(p, 2)) == ms;
    assert ShellMapName(p, true) == nm + "@" + ms;
  }
}
