/** Optional values, standing for Python's `None`. */
module Wrappers {

  datatype Option<+T> = None | Some(value: T)
}

/**
 The Python string operations the module relies on, with their Python
 behaviour: `str.split(sep)`, `sep.join(parts)`, `str.split()` on white
 space, and `'%s' % n` for an integer `n`.
 */
module Strings {

  /** Number of occurrences of `c` in `s`. */
  function Count(s: string, c: char): (n: nat)
    ensures n <= |s|
    ensures n == 0 <==> c !in s
  {
    if s == [] then 0
    else
      assert s == [s[0]] + s[1..];
      (if s[0] == c then 1 else 0) + Count(s[1..], c)
  }

  /** Occurrences in a concatenation add up. */
  lemma {:induction false} CountAppend(a: string, b: string, c: char)
    ensures Count(a + b, c) == Count(a, c) + Count(b, c)
  {
    if a != [] {
      CountAppend(a[1..], b, c);
      assert (a + b)[0] == a[0] && (a + b)[1..] == a[1..] + b;
    } else {
      assert a + b == b;
    }
  }

  /** `sep.join(parts)` for a one-character separator. */
  function Join(parts: seq<string>, sep: char): string
  {
    if |parts| == 0 then ""
    else if |parts| == 1 then parts[0]
    else parts[0] + [sep] + Join(parts[1..], sep)
  }

  /** `s.split(sep)` for a one-character separator: one part more than there
      are separators, and no part contains the separator. */
  function Split(s: string, sep: char): (parts: seq<string>)
    ensures |parts| == Count(s, sep) + 1
    ensures forall i :: 0 <= i < |parts| ==> sep !in parts[i]
  {
    if s == [] then [""]
    else
      var rest := Split(s[1..], sep);
      if s[0] == sep then [""] + rest
      else [[s[0]] + rest[0]] + rest[1..]
  }

  lemma JoinCons(c: char, parts: seq<string>, sep: char)
    requires |parts| >= 1
    ensures Join([[c] + parts[0]] + parts[1..], sep) == [c] + Join(parts, sep)
  {
    var q := [[c] + parts[0]] + parts[1..];
    assert q[0] == [c] + parts[0] && q[1..] == parts[1..];
  }

  /** Joining the parts of a split gives back the string. */
  lemma {:induction false} JoinSplit(s: string, sep: char)
    ensures Join(Split(s, sep), sep) == s
  {
    if s != [] {
      JoinSplit(s[1..], sep);
      var rest := Split(s[1..], sep);
      if s[0] == sep {
        assert ([""] + rest)[1..] == rest;
        assert s == [sep] + s[1..];
      } else {
        JoinCons(s[0], rest, sep);
        assert s == [s[0]] + s[1..];
      }
    }
  }

  /** A string without the separator splits into itself alone. */
  lemma {:induction false} SplitFree(s: string, sep: char)
    requires sep !in s
    ensures Split(s, sep) == [s]
  {
    if s != [] {
      SplitFree(s[1..], sep);
      assert s == [s[0]] + s[1..];
    }
  }

  /** The first separator ends the first part. */
  lemma {:induction false} SplitAfter(a: string, b: string, sep: char)
    requires sep !in a
    ensures Split(a + [sep] + b, sep) == [a] + Split(b, sep)
  {
    var s := a + [sep] + b;
    if a == [] {
      assert s[0] == sep && s[1..] == b;
    } else {
      assert s[0] == a[0] && s[0] != sep;
      assert s[1..] == a[1..] + [sep] + b;
      var rest := Split(s[1..], sep);
      assert rest == [a[1..]] + Split(b, sep) by {
        SplitAfter(a[1..], b, sep);
      }
      calc {
        Split(s, sep);
        [[a[0]] + rest[0]] + rest[1..];
        { assert [a[0]] + a[1..] == a; }
        [a] + Split(b, sep);
      }
    }
  }

  /** Splitting a join of separator-free parts gives the parts back. */
  lemma {:induction false} SplitJoin(parts: seq<string>, sep: char)
    requires |parts| >= 1
    requires forall i :: 0 <= i < |parts| ==> sep !in parts[i]
    ensures Split(Join(parts, sep), sep) == parts
  {
    if |parts| == 1 {
      SplitFree(parts[0], sep);
    } else {
      SplitJoin(parts[1..], sep);
      SplitAfter(parts[0], Join(parts[1..], sep), sep);
      assert [parts[0]] + parts[1..] == parts;
    }
  }

  /** The parts of a split hold no character the string does not. */
  lemma {:induction false} SplitWithin(s: string, sep: char, c: char)
    requires c !in s
    ensures forall i :: 0 <= i < |Split(s, sep)| ==> c !in Split(s, sep)[i]
  {
    if s != [] {
      assert s == [s[0]] + s[1..];
      SplitWithin(s[1..], sep, c);
    }
  }

  /** Joining two non-empty lists puts one separator between them. */
  lemma {:induction false} JoinAppend(a: seq<string>, b: seq<string>, sep: char)
    requires |a| >= 1 && |b| >= 1
    ensures Join(a + b, sep) == Join(a, sep) + [sep] + Join(b, sep)
  {
    if |a| == 1 {
      assert (a + b)[1..] == b;
    } else {
      JoinAppend(a[1..], b, sep);
      assert (a + b)[1..] == a[1..] + b;
    }
  }

  /** Python's `str.isspace` on ASCII: space, tab, line feed, vertical tab,
      form feed, carriage return and the separators 0x1c to 0x1f. */
  predicate IsSpace(c: char)
  {
    c == ' ' || 9 <= c as int <= 13 || 28 <= c as int <= 31
  }

  /** A word of `str.split()`: non-empty, no white space in it. */
  predicate IsWord(w: string)
  {
    w != [] && forall j :: 0 <= j < |w| ==> !IsSpace(w[j])
  }

  /** Length of the leading run of non-space characters. */
  function WordLength(s: string): (n: nat)
    ensures n <= |s|
    ensures forall i :: 0 <= i < n ==> !IsSpace(s[i])
    ensures n < |s| ==> IsSpace(s[n])
    ensures s != [] && !IsSpace(s[0]) ==> n > 0
  {
    if s == [] || IsSpace(s[0]) then 0 else 1 + WordLength(s[1..])
  }

  /** `s.split()`: the maximal runs of non-space characters, in order. */
  function Words(s: string): (ws: seq<string>)
    ensures forall i :: 0 <= i < |ws| ==> IsWord(ws[i])
    decreases |s|
  {
    if s == [] then []
    else if IsSpace(s[0]) then Words(s[1..])
    else
      var n := WordLength(s);
      [s[..n]] + Words(s[n..])
  }

  lemma {:induction false} WordLengthOfWord(w: string, rest: string)
    requires forall j :: 0 <= j < |w| ==> !IsSpace(w[j])
    requires rest == [] || IsSpace(rest[0])
    ensures WordLength(w + rest) == |w|
  {
    if w != [] {
      WordLengthOfWord(w[1..], rest);
      assert (w + rest)[1..] == w[1..] + rest;
    } else {
      assert w + rest == rest;
    }
  }

  lemma WordsAfterWord(w: string, rest: string)
    requires IsWord(w)
    requires rest == [] || IsSpace(rest[0])
    ensures Words(w + rest) == [w] + Words(rest)
  {
    WordLengthOfWord(w, rest);
    assert (w + rest)[..|w|] == w;
    assert (w + rest)[|w|..] == rest;
  }

  /** Space-joined words split back into the same words: the round trip a
      shell word list makes through `str.split()`. */
  lemma {:induction false} WordsOfJoin(ws: seq<string>)
    requires forall i :: 0 <= i < |ws| ==> IsWord(ws[i])
    ensures Words(Join(ws, ' ')) == ws
  {
    if |ws| == 1 {
      WordsAfterWord(ws[0], "");
      assert ws[0] + "" == ws[0];
    } else if |ws| > 1 {
      var rest := [' '] + Join(ws[1..], ' ');
      WordsOfJoin(ws[1..]);
      WordsAfterWord(ws[0], rest);
      assert rest[1..] == Join(ws[1..], ' ');
      assert ws[0] + [' '] + Join(ws[1..], ' ') == ws[0] + rest;
      assert [ws[0]] + ws[1..] == ws;
    }
  }

  /**
   A character-by-character description of what `' '.join(s.split())`
   writes: every run of white space becomes one ' ', and runs at either end
   are dropped. `pending` says white space was seen since the last character
   written, `started` that a character has been written.
   */
  function Collapse(s: string, pending: bool, started: bool): string
    decreases |s|
  {
    if s == [] then ""
    else if IsSpace(s[0]) then Collapse(s[1..], true, started)
    else (if pending && started then " " else "") + [s[0]] + Collapse(s[1..], false, true)
  }

  function Normalize(s: string): string
  {
    Collapse(s, false, false)
  }

  /** What `Collapse` writes, stated through the words of `s`. */
  function Spaced(s: string, pending: bool, started: bool): string
  {
    if Words(s) == [] then ""
    else (if started && (pending || IsSpace(s[0])) then " " else "") + Join(Words(s), ' ')
  }

  lemma {:induction false} CollapseWords(s: string, pending: bool, started: bool)
    ensures Collapse(s, pending, started) == Spaced(s, pending, started)
    decreases |s|
  {
    if s != [] {
      if IsSpace(s[0]) {
        CollapseWords(s[1..], true, started);
      } else {
        CollapseWords(s[1..], false, true);
        WordStart(s);
      }
    }
  }

  /** A word starting at the first character: the first character followed by
      what the rest writes is the space-joined words. */
  lemma WordStart(s: string)
    requires s != [] && !IsSpace(s[0])
    ensures [s[0]] + Spaced(s[1..], false, true) == Join(Words(s), ' ')
  {
    var n := WordLength(s);
    var rest := Words(s[n..]);
    assert Words(s) == [s[..n]] + rest;
    if n == 1 {
      SingleCharWord(s, rest);
    } else {
      LongerWord(s, n, rest);
    }
  }

  lemma SingleCharWord(s: string, rest: seq<string>)
    requires s != [] && !IsSpace(s[0]) && WordLength(s) == 1
    requires rest == Words(s[1..])
    ensures [s[0]] + Spaced(s[1..], false, true) == Join([s[..1]] + rest, ' ')
  {
    assert s[..1] == [s[0]];
    if rest != [] {
      assert ([s[..1]] + rest)[1..] == rest;
    }
  }

  lemma LongerWord(s: string, n: nat, rest: seq<string>)
    requires s != [] && !IsSpace(s[0]) && n == WordLength(s) && n > 1
    requires rest == Words(s[n..])
    ensures [s[0]] + Spaced(s[1..], false, true) == Join([s[..n]] + rest, ' ')
  {
    var t := s[1..];
    assert WordLength(t) == n - 1;
    assert t[..n - 1] == s[1..n] && t[n - 1..] == s[n..];
    assert Words(t) == [s[1..n]] + rest;
    JoinCons(s[0], [s[1..n]] + rest, ' ');
    assert [s[0]] + s[1..n] == s[..n];
  }

  /** `str.split()` keeps the non-space runs of `s`, in order: joined with
      single spaces they give `s` with its white space collapsed and trimmed. */
  lemma WordsNormalize(s: string)
    ensures Join(Words(s), ' ') == Normalize(s)
  {
    CollapseWords(s, false, false);
  }

  function Digit(d: nat): (c: char)
    requires d < 10
    ensures '0' <= c <= '9'
  {
    ('0' as int + d) as char
  }

  /** Decimal text of a natural number, as Python's `str` writes it. */
  function NatText(n: nat): (s: string)
    ensures |s| > 0
    ensures forall i :: 0 <= i < |s| ==> '0' <= s[i] <= '9'
  {
    if n < 10 then [Digit(n)] else NatText(n / 10) + [Digit(n % 10)]
  }

  /** Decimal text of an integer, with a leading '-' when negative. */
  function IntText(n: int): (s: string)
    ensures |s| > 0
    ensures s[0] == '-' <==> n < 0
    ensures forall i :: 0 <= i < |s| ==> s[i] == '-' || '0' <= s[i] <= '9'
  {
    if n < 0 then "-" + NatText(-n) else NatText(n)
  }

  function DigitValue(c: char): int
  {
    c as int - '0' as int
  }

  /** The number a string of decimal digits denotes. */
  function DecimalValue(s: string): int
  {
    if s == [] then 0 else 10 * DecimalValue(s[..|s| - 1]) + DigitValue(s[|s| - 1])
  }

  /** The number an optionally signed decimal text denotes. */
  function IntValue(s: string): int
  {
    if s != [] && s[0] == '-' then -DecimalValue(s[1..]) else DecimalValue(s)
  }

  /** Reading the text of a natural number gives the number back. */
  lemma {:induction false} NatTextValue(n: nat)
    ensures DecimalValue(NatText(n)) == n
  {
    if n >= 10 {
      NatTextValue(n / 10);
      var s := NatText(n);
      assert s[..|s| - 1] == NatText(n / 10);
    }
  }

  /** Reading the text of an integer gives the integer back, so distinct
      integers have distinct texts. */
  lemma IntTextValue(n: int, m: int)
    ensures IntValue(IntText(n)) == n
    ensures IntText(n) == IntText(m) ==> n == m
  {
    if n < 0 {
      NatTextValue(-n);
      assert IntText(n)[1..] == NatText(-n);
    } else {
      NatTextValue(n);
    }
    if m < 0 {
      NatTextValue(-m);
      assert IntText(m)[1..] == NatText(-m);
    } else {
      NatTextValue(m);
    }
  }
}

/**
 File-system paths as sequences of components. `Render` is what `os.path.join`
 writes for them (components joined by '/'), `ParsePath` reads a path string
 back into components, and `Dirname`/`Basename` are `os.path.dirname` and
 `os.path.basename` on canonical paths.
 */
module Paths {
  import opened Strings

  type Path = seq<string>

  function Render(p: Path): string
  {
    Join(p, '/')
  }

  function ParsePath(s: string): Path
  {
    Split(s, '/')
  }

  /** The components are names: none of them contains '/'. */
  predicate Canonical(p: Path)
  {
    |p| >= 1 && forall i :: 0 <= i < |p| ==> '/' !in p[i]
  }

  function Dirname(p: Path): (q: Path)
    ensures q <= p
    ensures |p| > 0 ==> |q| == |p| - 1
  {
    if p == [] then [] else p[..|p| - 1]
  }

  function Basename(p: Path): string
  {
    if p == [] then "" else p[|p| - 1]
  }

  /** `os.path.dirname` applied `k` times. */
  function Ancestor(p: Path, k: nat): (q: Path)
    ensures q <= p
    ensures k <= |p| ==> |q| == |p| - k
  {
    if k == 0 then p else Dirname(Ancestor(p, k - 1))
  }

  /** Rendering and parsing are inverse: a string read as a path renders back
      to itself, and a canonical path survives rendering and parsing. */
  lemma RenderParse(s: string, p: Path)
    ensures Render(ParsePath(s)) == s
    ensures Canonical(p) ==> ParsePath(Render(p)) == p
    ensures ParsePath(s) != []
  {
    JoinSplit(s, '/');
    if Canonical(p) {
      SplitJoin(p, '/');
    }
  }

  /** The rendering of a path extended by more components starts with the
      rendering of the path itself, followed by '/'. */
  lemma RenderAppend(a: Path, b: Path)
    requires |a| >= 1 && |b| >= 1
    ensures Render(a + b) == Render(a) + "/" + Render(b)
    ensures Render(a) <= Render(a + b)
  {
    JoinAppend(a, b, '/');
  }
}
