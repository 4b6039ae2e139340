/**
 * The output path: `convert_` in front of the input's file name, in the
 * input's directory, with the container suffix kept when it is one of
 * `.mp4`, `.avi`, `.mov`, `.mkv` (in any letter case) and replaced or
 * supplied as `.mp4` otherwise. Paths are POSIX paths in pathlib's parsed
 * form.
 */
module Paths {
  import opened Wrappers

  /** A path as pathlib holds it: an anchor ("" or "/"), the directory parts, and the final name. */
  datatype Path = Path(anchor: string, dirs: seq<string>, name: string)

  const OutputPrefix: string := "convert_"
  const DefaultSuffix: string := ".mp4"
  const KeptSuffixes: set<string> := {".mp4", ".avi", ".mov", ".mkv"}

  /** `str(path)`: the anchor, each directory followed by `/`, then the name. */
  function PathString(p: Path): string {
    p.anchor + DirsString(p.dirs) + p.name
  }

  function DirsString(dirs: seq<string>): string {
    if |dirs| == 0 then "" else DirsString(dirs[..|dirs| - 1]) + dirs[|dirs| - 1] + "/"
  }

  /** `s.rfind(c)`: the last position of c in s. */
  function LastIndexOf(s: string, c: char): (r: Option<nat>)
    ensures r.Some? ==> r.value < |s| && s[r.value] == c
    ensures r.Some? ==> forall j :: r.value < j < |s| ==> s[j] != c
    ensures r.None? <==> c !in s
  {
    if |s| == 0 then None
    else if s[|s| - 1] == c then Some(|s| - 1)
    else LastIndexOf(s[..|s| - 1], c)
  }

  /**
   * Where pathlib's suffix starts (CPython 3.12 `PurePath.suffix`): the last
   * dot, when it is neither the first nor the last character.
   */
  function SuffixStart(name: string): (r: Option<nat>)
    ensures r.Some? ==> 0 < r.value < |name| - 1 && name[r.value] == '.'
    ensures r.Some? ==> '.' !in name[r.value + 1..]
    ensures r.None? ==> forall i :: 0 < i < |name| - 1 && name[i] == '.' ==> '.' in name[i + 1..]
  {
    match LastIndexOf(name, '.')
    case Some(i) => if 0 < i < |name| - 1 then Some(i) else None
    case None => None
  }

  /** `PurePath.suffix` of a name. */
  function Suffix(name: string): string {
    match SuffixStart(name)
    case Some(i) => name[i..]
    case None => ""
  }

  /** `PurePath.stem` of a name. */
  function Stem(name: string): string {
    match SuffixStart(name)
    case Some(i) => name[..i]
    case None => name
  }

  /** ASCII lower case of one character. */
  function LowerChar(c: char): char {
    if 'A' <= c <= 'Z' then (c as int - 'A' as int + 'a' as int) as char else c
  }

  /** `s.lower()` over ASCII letters. */
  function Lower(s: string): (r: string)
    ensures |r| == |s| && forall i :: 0 <= i < |s| ==> r[i] == LowerChar(s[i])
  {
    seq(|s|, i requires 0 <= i < |s| => LowerChar(s[i]))
  }

  predicate KeepsSuffix(suffix: string) {
    Lower(suffix) in KeptSuffixes
  }

  /** A suffix as pathlib reports one: a dot, then at least one character, none of them a dot. */
  predicate IsSuffix(suffix: string) {
    2 <= |suffix| && suffix[0] == '.' && '.' !in suffix[1..]
  }

  /**
   * `path.with_suffix(suffix)` for a path whose name is not empty: same
   * directory, and for a dotted suffix the new name has that suffix and the
   * old stem.
   */
  function WithSuffix(p: Path, suffix: string): (q: Path)
    requires p.name != []
    ensures q.anchor == p.anchor && q.dirs == p.dirs
    ensures IsSuffix(suffix) ==> Suffix(q.name) == suffix && Stem(q.name) == Stem(p.name)
  {
    SuffixShape(p.name);
    NewSuffixParts(Stem(p.name), suffix);
    p.(name := Stem(p.name) + suffix)
  }

  /** A non-empty stem followed by a dotted suffix splits back into the two. */
  lemma NewSuffixParts(stem: string, suffix: string)
    ensures stem != [] && IsSuffix(suffix) ==> Suffix(stem + suffix) == suffix && Stem(stem + suffix) == stem
  {
    if stem != [] && IsSuffix(suffix) {
      var name := stem + suffix;
      forall j | |stem| < j < |name|
        ensures name[j] != '.'
      {
        assert name[j] == suffix[1..][j - |stem| - 1];
      }
      LastIndexAt(name, '.', |stem|);
    }
  }

  /** `video_encoder.py`, lines 107-111: the path the converted video is written to, in the input's directory. */
  function OutputPath(input: Path): (out: Path)
    ensures out.anchor == input.anchor && out.dirs == input.dirs
    ensures |OutputPrefix| <= |out.name| && out.name[..|OutputPrefix|] == OutputPrefix
  {
    var marked := input.(name := OutputPrefix + input.name);
    assert marked.name[..|OutputPrefix|] == OutputPrefix;
    if KeepsSuffix(Suffix(marked.name)) then marked
    else
      StemWithSuffix(marked.name);
      WithSuffix(marked, DefaultSuffix)
  }

  /**
   * The marked name `convert_` + name keeps its suffix exactly when the
   * suffix is a kept container in some letter case, and gets `.mp4`
   * otherwise; its stem never changes.
   */
  lemma OutputSuffix(input: Path)
    ensures Suffix(OutputPath(input).name) == Suffix(OutputPrefix + input.name)
      <==> KeepsSuffix(Suffix(OutputPrefix + input.name))
    ensures !KeepsSuffix(Suffix(OutputPrefix + input.name)) ==> Suffix(OutputPath(input).name) == DefaultSuffix
    ensures Stem(OutputPath(input).name) == Stem(OutputPrefix + input.name)
  {
    var marked := OutputPrefix + input.name;
    assert marked[..|OutputPrefix|] == OutputPrefix;
    StemWithSuffix(marked);
    KeepsDefault();
  }

  /** `.mp4` itself is one of the kept suffixes. */
  lemma KeepsDefault()
    ensures KeepsSuffix(DefaultSuffix)
  {
    assert Lower(DefaultSuffix) == DefaultSuffix;
  }

  /**
   * The suffix ends the name and is empty or a dot, at least one more
   * character and no other dot; the stem begins the name and is empty only
   * for the empty name.
   */
  lemma SuffixShape(name: string)
    ensures |Suffix(name)| <= |name| && Suffix(name) == name[|name| - |Suffix(name)|..]
    ensures Suffix(name) != [] ==> IsSuffix(Suffix(name)) && |Suffix(name)| < |name|
    ensures |Stem(name)| <= |name| && Stem(name) == name[..|Stem(name)|]
    ensures name != [] ==> Stem(name) != []
  {
    match SuffixStart(name)
    case None =>
    case Some(i) =>
      assert Suffix(name)[1..] == name[i + 1..];
  }

  /** A name is its stem followed by its suffix. */
  lemma StemSuffix(name: string)
    ensures Stem(name) + Suffix(name) == name
  {
  }

  /** Giving a name that starts with the output prefix the default suffix makes `.mp4` its suffix and keeps its stem. */
  lemma StemWithSuffix(name: string)
    requires |OutputPrefix| <= |name| && name[..|OutputPrefix|] == OutputPrefix
    ensures Suffix(Stem(name) + DefaultSuffix) == DefaultSuffix
    ensures Stem(Stem(name) + DefaultSuffix) == Stem(name)
    ensures |OutputPrefix| <= |Stem(name)| && Stem(name)[..|OutputPrefix|] == OutputPrefix
  {
    var stem := Stem(name);
    var renamed := stem + DefaultSuffix;
    assert forall j :: 0 <= j < |OutputPrefix| ==> name[j] == OutputPrefix[j];
    assert '.' !in OutputPrefix;
    assert |OutputPrefix| <= |stem|;
    assert stem[..|OutputPrefix|] == name[..|OutputPrefix|];
    assert |renamed| == |stem| + 4;
    assert renamed[|stem|] == '.' && renamed[|stem| + 1] == 'm' && renamed[|stem| + 2] == 'p' && renamed[|stem| + 3] == '4';
    assert LastIndexOf(renamed, '.') == Some(|stem|);
    assert renamed[|stem|..] == DefaultSuffix;
  }

  /** A name whose only dot is its first character, followed by more text, as in `.mov`: pathlib gives it no suffix. */
  predicate IsDotFile(name: string) {
    LastIndexOf(name, '.') == Some(0) && 2 <= |name|
  }

  /** Text without c in front of s moves the last c of s by its length. */
  lemma {:induction false} LastIndexAfterPrefix(before: string, s: string, c: char)
    requires c !in before
    ensures LastIndexOf(before + s, c) == (match LastIndexOf(s, c) case Some(i) => Some(|before| + i) case None => None)
  {
    var r := LastIndexOf(before + s, c);
    match LastIndexOf(s, c)
    case None =>
      assert forall j :: 0 <= j < |before + s| ==> (before + s)[j] != c by {
        forall j | 0 <= j < |before + s|
          ensures (before + s)[j] != c
        {
          if j < |before| {
            assert (before + s)[j] == before[j];
          } else {
            assert (before + s)[j] == s[j - |before|];
          }
        }
      }
    case Some(i) =>
      assert (before + s)[|before| + i] == c;
      assert r.Some?;
      if r.value >= |before| {
        assert (before + s)[r.value] == s[r.value - |before|];
      }
  }

  /**
   * Except for a dot file, the marked name `convert_` + name has the same
   * suffix as the name, and its stem is `convert_` followed by the name's stem.
   */
  lemma MarkedNameParts(name: string)
    requires !IsDotFile(name)
    ensures Suffix(OutputPrefix + name) == Suffix(name)
    ensures Stem(OutputPrefix + name) == OutputPrefix + Stem(name)
  {
    assert '.' !in OutputPrefix;
    LastIndexAfterPrefix(OutputPrefix, name, '.');
    var marked := OutputPrefix + name;
    match LastIndexOf(name, '.')
    case None =>
      assert SuffixStart(marked).None? && SuffixStart(name).None?;
    case Some(j) =>
      assert LastIndexOf(marked, '.') == Some(|OutputPrefix| + j);
      if 0 < j < |name| - 1 {
        assert SuffixStart(name) == Some(j) && SuffixStart(marked) == Some(|OutputPrefix| + j);
        assert marked[|OutputPrefix| + j..] == name[j..];
        assert marked[..|OutputPrefix| + j] == OutputPrefix + name[..j];
      } else {
        assert SuffixStart(marked).None? && SuffixStart(name).None?;
      }
  }

  /** A dot file's whole name becomes the marked name's suffix, and its stem is `convert_` alone. */
  lemma DotFileMarkedParts(name: string)
    requires IsDotFile(name)
    ensures Suffix(OutputPrefix + name) == name
    ensures Stem(OutputPrefix + name) == OutputPrefix
  {
    assert '.' !in OutputPrefix;
    LastIndexAfterPrefix(OutputPrefix, name, '.');
    var marked := OutputPrefix + name;
    assert marked[|OutputPrefix|..] == name;
    assert marked[..|OutputPrefix|] == OutputPrefix;
  }

  /**
   * Apart from dot files, an input whose suffix is a kept container in any
   * letter case gives `convert_` + its name, suffix case preserved.
   */
  lemma OutputKeepsName(input: Path)
    requires !IsDotFile(input.name) && KeepsSuffix(Suffix(input.name))
    ensures OutputPath(input).name == OutputPrefix + input.name
  {
    MarkedNameParts(input.name);
  }

  /**
   * Apart from dot files, any other input gives `convert_` + its stem +
   * `.mp4`: the suffix is replaced, or supplied when there is none.
   */
  lemma OutputReplacesSuffix(input: Path)
    requires !IsDotFile(input.name) && !KeepsSuffix(Suffix(input.name))
    ensures OutputPath(input).name == OutputPrefix + Stem(input.name) + DefaultSuffix
  {
    MarkedNameParts(input.name);
    OutputSuffix(input);
    var out := OutputPath(input).name;
    StemSuffix(out);
  }

  /** Apart from dot files, the output name starts with `convert_` followed by the input's stem. */
  lemma OutputStartsWithStem(input: Path)
    requires !IsDotFile(input.name)
    ensures |OutputPrefix + Stem(input.name)| <= |OutputPath(input).name|
    ensures OutputPath(input).name[..|OutputPrefix + Stem(input.name)|] == OutputPrefix + Stem(input.name)
  {
    MarkedNameParts(input.name);
    OutputSuffix(input);
    StemSuffix(OutputPath(input).name);
  }

  /** A dot file keeps its whole name when that name is a kept container, as `.mov` gives `convert_.mov`. */
  lemma DotFileKept(input: Path)
    requires IsDotFile(input.name) && KeepsSuffix(input.name)
    ensures OutputPath(input).name == OutputPrefix + input.name
  {
    DotFileMarkedParts(input.name);
  }

  /** Any other dot file loses its name: the output is `convert_.mp4`. */
  lemma DotFileReplaced(input: Path)
    requires IsDotFile(input.name) && !KeepsSuffix(input.name)
    ensures OutputPath(input).name == OutputPrefix + DefaultSuffix
  {
    DotFileMarkedParts(input.name);
    OutputSuffix(input);
    StemSuffix(OutputPath(input).name);
  }

  /** Every kept suffix is four characters long. */
  lemma KeptLength(suffix: string)
    requires KeepsSuffix(suffix)
    ensures |suffix| == 4
  {
  }

  /** The printed output path is the printed input path with its file name replaced by the output name. */
  lemma {:induction false} OutputPathString(input: Path)
    ensures |input.name| <= |PathString(input)|
    ensures PathString(OutputPath(input))
      == PathString(input)[..|PathString(input)| - |input.name|] + OutputPath(input).name
  {
    var dir := input.anchor + DirsString(input.dirs);
    assert PathString(input) == dir + input.name;
    assert (dir + input.name)[..|dir|] == dir;
  }

  /** The last c is at i when s has c at i and none after it. */
  lemma LastIndexAt(s: string, c: char, i: nat)
    requires i < |s| && s[i] == c && forall j :: i < j < |s| ==> s[j] != c
    ensures LastIndexOf(s, c) == Some(i)
  {
    var r := LastIndexOf(s, c);
    assert r.Some?;
  }

  /** A dot-free, non-empty stem followed by a dotted extension splits back into the two. */
  lemma SplitName(stem: string, ext: string)
    requires stem != [] && '.' !in stem
    requires 2 <= |ext| && ext[0] == '.' && '.' !in ext[1..]
    ensures Suffix(stem + ext) == ext && Stem(stem + ext) == stem && !IsDotFile(stem + ext)
  {
    var name := stem + ext;
    forall j | |stem| < j < |name|
      ensures name[j] != '.'
    {
      assert name[j] == ext[1..][j - |stem| - 1];
    }
    LastIndexAt(name, '.', |stem|);
  }

  /** Which suffixes are kept, in lower and upper case. */
  lemma KeptExamples()
    ensures KeepsSuffix(".mkv") && KeepsSuffix(".MOV") && KeepsSuffix(".Avi")
    ensures !KeepsSuffix(".webm") && !KeepsSuffix(".mp3")
  {
    assert Lower(".mkv") == ".mkv";
    assert Lower(".MOV") == ".mov";
    assert Lower(".Avi") == ".avi";
    assert Lower(".mp3") == ".mp3";
  }

  lemma ExampleKeptContainer(stem: string)
    requires stem != [] && '.' !in stem
    ensures OutputPath(Path("", [], stem + ".mkv")).name == "convert_" + (stem + ".mkv")
  {
    SplitName(stem, ".mkv");
    KeptExamples();
    OutputKeepsName(Path("", [], stem + ".mkv"));
  }

  lemma ExampleReplacedContainer(stem: string)
    requires stem != [] && '.' !in stem
    ensures OutputPath(Path("", [], stem + ".webm")).name == "convert_" + stem + ".mp4"
  {
    SplitName(stem, ".webm");
    KeptExamples();
    OutputReplacesSuffix(Path("", [], stem + ".webm"));
  }

  lemma ExampleUpperCaseKept(stem: string)
    requires stem != [] && '.' !in stem
    ensures OutputPath(Path("/", ["home", "me"], stem + ".MOV")) == Path("/", ["home", "me"], "convert_" + (stem + ".MOV"))
  {
    SplitName(stem, ".MOV");
    KeptExamples();
    OutputKeepsName(Path("/", ["home", "me"], stem + ".MOV"));
  }

  lemma ExampleNoSuffix(name: string)
    requires '.' !in name
    ensures OutputPath(Path("", [], name)).name == "convert_" + name + ".mp4"
  {
    OutputReplacesSuffix(Path("", [], name));
  }

  /** The name of a dot file is a dot, then text without a dot. */
  lemma DotFileName(rest: string)
    requires rest != [] && '.' !in rest
    ensures IsDotFile("." + rest)
  {
    var name := "." + rest;
    forall j | 0 < j < |name|
      ensures name[j] != '.'
    {
      assert name[j] == rest[j - 1];
    }
    LastIndexAt(name, '.', 0);
  }

  /** A dot file such as `.bashrc`, whose name is not a kept container, comes out as `convert_.mp4`. */
  lemma ExampleDotFile(rest: string)
    requires rest != [] && '.' !in rest && |rest| != 3
    ensures OutputPath(Path("", [], "." + rest)).name == OutputPrefix + DefaultSuffix
  {
    DotFileName(rest);
    if KeepsSuffix("." + rest) {
      KeptLength("." + rest);
    }
    DotFileReplaced(Path("", [], "." + rest));
  }
}
