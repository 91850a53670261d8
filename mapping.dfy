/** Where the compiled stylesheet of a watched file goes (`ouputPath`): the
    file's path with the root directory and the trailing `.less` sliced off,
    the output extension appended, resolved under the output directory. */
module Mapping {
  import opened Js
  import opened Paths
  import opened Config
  import opened Selection

  /** The relative string `ouputPath` passes to `path.resolve`, as written: the
      file path sliced from one past the length of the root directory's path up
      to five characters before its end, followed by the output extension. */
  function RelativeOutputAsWritten(root: string, filePath: string, ext: string): (r: string)
    ensures |r| >= |ext| && r[|r| - |ext|..] == ext
  {
    Slice(filePath, |root| + 1, |filePath| - 5) + ext
  }

  /** The same slice, dropping the root directory's own prefix: `root + "/"`,
      or just `/` when the root directory is `/` itself. */
  function RelativeOutput(root: string, filePath: string, ext: string): (r: string)
    ensures |r| >= |ext| && r[|r| - |ext|..] == ext
  {
    Slice(filePath, |DirPrefix(root)|, |filePath| - 5) + ext
  }

  /** For `root + "/" + rel + ".less"` exactly `|root| + 1` leading and five
      trailing characters are dropped: what is resolved is `rel` plus the extension. */
  lemma {:induction false} SliceDropsRootAndSuffix(root: string, rel: string, ext: string)
    ensures RelativeOutputAsWritten(root, root + "/" + rel + ".less", ext) == rel + ext
  {
    var fp := root + "/" + rel + ".less";
    assert fp[|root| + 1..|fp| - 5] == rel;
  }

  /** Distinct relative stems give distinct relative outputs. */
  lemma {:induction false} AsWrittenDistinct(root: string, rel1: string, rel2: string, ext: string)
    requires rel1 != rel2
    ensures RelativeOutputAsWritten(root, root + "/" + rel1 + ".less", ext)
         != RelativeOutputAsWritten(root, root + "/" + rel2 + ".less", ext)
  {
    SliceDropsRootAndSuffix(root, rel1, ext);
    SliceDropsRootAndSuffix(root, rel2, ext);
    assert rel1 == (rel1 + ext)[..|rel1|];
    assert rel2 == (rel2 + ext)[..|rel2|];
  }

  /** Below any root directory other than `/` the corrected slice is the one written. */
  lemma {:induction false} AsWrittenAgreesBelowProperRoot(root: string, filePath: string, ext: string)
    requires root != "/"
    ensures RelativeOutputAsWritten(root, filePath, ext) == RelativeOutput(root, filePath, ext)
  {
    assert |DirPrefix(root)| == |root| + 1;
  }

  /** With `/` as root directory the written slice drops the first character
      `c` of the relative path, where the corrected slice keeps it. JavaScript
      counts UTF-16 code units, so this holds for a `c` of the Basic
      Multilingual Plane, which is one code unit long. */
  lemma {:induction false} RootDirectorySliceDropsCharacter(c: char, rest: string, ext: string)
    requires c as int < 0x10000
    ensures RelativeOutputAsWritten("/", "/" + [c] + rest + ".less", ext) == rest + ext
    ensures RelativeOutput("/", "/" + [c] + rest + ".less", ext) == [c] + rest + ext
  {
    var fp := "/" + [c] + rest + ".less";
    assert fp[2..|fp| - 5] == rest;
    assert fp[1..|fp| - 5] == [c] + rest;
  }

  /** With `/` as root directory, paths that differ only in the character after
      the leading `/` share one output, whereas the corrected slice keeps them
      apart. Both characters are of the Basic Multilingual Plane. */
  lemma {:induction false} RootDirectorySliceCollides(c1: char, c2: char, rest: string, ext: string)
    requires c1 as int < 0x10000 && c2 as int < 0x10000
    requires c1 != c2
    ensures RelativeOutputAsWritten("/", "/" + [c1] + rest + ".less", ext)
         == RelativeOutputAsWritten("/", "/" + [c2] + rest + ".less", ext)
    ensures RelativeOutput("/", "/" + [c1] + rest + ".less", ext)
         != RelativeOutput("/", "/" + [c2] + rest + ".less", ext)
  {
    RootDirectorySliceDropsCharacter(c1, rest, ext);
    RootDirectorySliceDropsCharacter(c2, rest, ext);
    var r1, r2 := [c1] + rest + ext, [c2] + rest + ext;
    assert r1[0] == c1 && r2[0] == c2;
  }

  /** With `/` as root directory, a file below a top-level directory whose name
      `d` is one character long gets the absolute string `/` + `rest` + `ext`;
      the corrected slice keeps it relative. `d` is of the Basic Multilingual
      Plane, so that one character is one UTF-16 code unit. */
  lemma {:induction false} RootDirectorySliceGoesAbsolute(d: char, rest: string, ext: string)
    requires d as int < 0x10000
    ensures RelativeOutputAsWritten("/", "/" + [d] + "/" + rest + ".less", ext) == "/" + rest + ext
    ensures RelativeOutput("/", "/" + [d] + "/" + rest + ".less", ext) == [d] + "/" + rest + ext
  {
    var fp := "/" + [d] + "/" + rest + ".less";
    assert fp[2..|fp| - 5] == "/" + rest;
    assert fp[1..|fp| - 5] == [d] + "/" + rest;
  }

  /** A relative path with `/` in front is an absolute path under `/`. */
  lemma {:induction false} SlashRelPath(rest: string)
    requires IsRelPath(rest)
    ensures IsAbsDir("/" + rest) && IsUnder("/", "/" + rest)
  {
    RelPathShape(rest);
    assert ("/" + rest)[1..] == rest;
  }

  /** `path.resolve` returns such an absolute string `/` + `rest` unchanged.
      It lies under the root directory `/`, which is the default output
      directory, and under any other output directory only when `rest` happens
      to start with that directory's own path. */
  lemma {:induction false} AbsoluteOutputEscapes(out: string, rest: string)
    requires IsAbsDir(out) && IsRelPath(rest)
    ensures IsAbsDir("/" + rest) && Resolve(out, "/" + rest) == "/" + rest
    ensures IsUnder("/", "/" + rest)
    ensures IsUnder(out, "/" + rest) ==> out == "/" || (|out| <= |rest| && rest[..|out|] == out[1..] + "/")
  {
    SlashRelPath(rest);
    if out != "/" && IsUnder(out, "/" + rest) {
      UnderStartsWith(out, "/" + rest);
      SlashPrefix(rest, out);
    }
  }

  /** When `/` + `rest` starts with `d` + `/`, `rest` starts with `d` without
      its first character, followed by `/`. */
  lemma {:induction false} SlashPrefix(rest: string, d: string)
    requires 1 <= |d| <= |rest| && ("/" + rest)[..|d| + 1] == d + "/"
    ensures rest[..|d|] == d[1..] + "/"
  {
    assert forall i :: 0 <= i < |d| ==> rest[i] == ("/" + rest)[i + 1] == (d + "/")[i + 1];
  }

  /** For a file at `rel + ".less"` under the root the corrected slice yields
      `rel` plus the extension, whatever the root directory. */
  lemma {:induction false} RelativeOutputOfSource(root: string, rel: string, ext: string)
    ensures RelativeOutput(root, DirPrefix(root) + rel + ".less", ext) == rel + ext
  {
    var fp := DirPrefix(root) + rel + ".less";
    assert fp[|DirPrefix(root)|..|fp| - 5] == rel;
  }

  /** The output of a file is a clean relative path under the output directory,
      so that `path.resolve` is a join. */
  predicate MapsCleanly(cfg: Settings, filePath: string) {
    IsAbsDir(cfg.output) && IsRelPath(RelativeOutput(cfg.root, filePath, cfg.extension))
  }

  /** `ouputPath(filePath)`. */
  function OutputPath(cfg: Settings, filePath: string): (r: string)
    requires MapsCleanly(cfg, filePath)
    ensures IsAbsDir(r) && IsUnder(cfg.output, r)
    ensures r[|DirPrefix(cfg.output)|..] == RelativeOutput(cfg.root, filePath, cfg.extension)
  {
    Resolve(cfg.output, RelativeOutput(cfg.root, filePath, cfg.extension))
  }

  /** A configuration the watcher can run with: clean directories and an
      extension that keeps each output a plain file name. */
  predicate ValidConfig(cfg: Settings) {
    IsAbsDir(cfg.root) && IsAbsDir(cfg.output) && SafeExtension(cfg.extension)
  }

  /** A selected file strictly below a directory prefix: its part after the
      prefix still ends in `.less`. */
  lemma {:induction false} SelectedTail(a: string, rel: string)
    requires |a| > 0 && a[|a| - 1] == '/' && IsLessFile(a + rel)
    ensures |rel| >= 5 && rel[|rel| - 5..] == ".less"
  {
    var p := a + rel;
    forall i | |p| - 5 <= i < |p| ensures p[i] != '/' {
      assert p[i] == p[|p| - 5..][i - (|p| - 5)];
    }
    assert p[|a| - 1] == '/';
    assert rel[|rel| - 5..] == p[|p| - 5..];
  }

  /** A selected file under the root is long enough to hold the root's prefix
      and the `.less` suffix. */
  lemma {:induction false} SelectedFileBounds(root: string, filePath: string)
    requires IsUnder(root, filePath) && IsLessFile(filePath)
    ensures |DirPrefix(root)| <= |filePath| - 5
  {
    var a := DirPrefix(root);
    UnderSplit(root, filePath);
    SelectedTail(a, filePath[|a|..]);
  }

  /** Where those bounds hold, the corrected slice is the part between the
      root's prefix and the `.less` suffix. */
  lemma {:induction false} SourceRelativeOutput(root: string, filePath: string, ext: string)
    requires |DirPrefix(root)| <= |filePath| - 5
    ensures RelativeOutput(root, filePath, ext) == filePath[|DirPrefix(root)|..|filePath| - 5] + ext
  {
  }

  /** A selected file under the root maps cleanly under the output directory. */
  lemma {:induction false} SourceMapsCleanly(cfg: Settings, filePath: string)
    requires ValidConfig(cfg) && IsUnder(cfg.root, filePath) && IsLessFile(filePath)
    ensures MapsCleanly(cfg, filePath)
  {
    var n := |DirPrefix(cfg.root)|;
    SelectedFileBounds(cfg.root, filePath);
    SourceRelativeOutput(cfg.root, filePath, cfg.extension);
    StemPlusExtension(filePath[n..], filePath, n, cfg.extension);
  }

  /** The stem of a selected relative path followed by a safe extension is
      still a relative path. */
  lemma {:induction false} StemPlusExtension(rel: string, filePath: string, n: nat, ext: string)
    requires n <= |filePath| - 5 && rel == filePath[n..]
    requires IsRelPath(rel) && IsLessFile(filePath) && SafeExtension(ext)
    ensures IsRelPath(filePath[n..|filePath| - 5] + ext)
  {
    assert rel[..|rel| - 5] == filePath[n..|filePath| - 5];
    LessTail(filePath, n);
    RelPathReplaceSuffix(rel, 5, ext);
  }

  /** The last five characters of a `.less` file, which contain no `/`, are
      also those of every suffix of its path that keeps them. */
  lemma {:induction false} LessTail(filePath: string, n: nat)
    requires n <= |filePath| - 5 && IsLessFile(filePath)
    ensures var rel := filePath[n..]; 5 <= |rel| && '/' !in rel[|rel| - 5..]
  {
    var rel := filePath[n..];
    assert rel[|rel| - 5..] == ".less";
    assert forall i :: 0 <= i < 5 ==> ".less"[i] != '/';
  }

  /** The persisted layout: a file at `rel + ".less"` under the root is compiled
      to `rel` plus the extension under the output directory. */
  lemma {:induction false} OutputPathLayout(cfg: Settings, rel: string)
    requires IsAbsDir(cfg.output) && IsRelPath(rel + cfg.extension)
    ensures MapsCleanly(cfg, DirPrefix(cfg.root) + rel + ".less")
    ensures OutputPath(cfg, DirPrefix(cfg.root) + rel + ".less") == DirPrefix(cfg.output) + rel + cfg.extension
  {
    RelativeOutputOfSource(cfg.root, rel, cfg.extension);
    ResolveRelative(cfg.output, rel + cfg.extension);
    Reassociate3(DirPrefix(cfg.output), rel, cfg.extension);
  }

  /** Concatenation is associative; unlike `Paths.Reassociate` no `/` is
      inserted between the pieces. */
  lemma Reassociate3(a: string, b: string, c: string)
    ensures a + (b + c) == a + b + c
  {
  }

  /** Different selected files under the root never share an output path. */
  lemma {:induction false} OutputPathInjective(cfg: Settings, p1: string, p2: string)
    requires ValidConfig(cfg)
    requires IsUnder(cfg.root, p1) && IsLessFile(p1)
    requires IsUnder(cfg.root, p2) && IsLessFile(p2)
    requires MapsCleanly(cfg, p1) && MapsCleanly(cfg, p2)
    requires OutputPath(cfg, p1) == OutputPath(cfg, p2)
    ensures p1 == p2
  {
    var n := |DirPrefix(cfg.root)|;
    SelectedFileBounds(cfg.root, p1);
    SelectedFileBounds(cfg.root, p2);
    SourceRelativeOutput(cfg.root, p1, cfg.extension);
    SourceRelativeOutput(cfg.root, p2, cfg.extension);
    var s1, s2 := p1[n..|p1| - 5], p2[n..|p2| - 5];
    AppendCancel(s1, s2, cfg.extension);
    FileFromStem(cfg.root, p1);
    FileFromStem(cfg.root, p2);
  }

  /** Two strings with the same suffix appended were equal. */
  lemma AppendCancel(s1: string, s2: string, ext: string)
    requires s1 + ext == s2 + ext
    ensures s1 == s2
  {
    assert s1 == (s1 + ext)[..|s1|];
    assert s2 == (s2 + ext)[..|s2|];
  }

  /** A selected file is its root prefix, its stem and `.less`. */
  lemma FileFromStem(root: string, p: string)
    requires |DirPrefix(root)| <= |p| - 5 && p[..|DirPrefix(root)|] == DirPrefix(root) && IsLessFile(p)
    ensures p == DirPrefix(root) + p[|DirPrefix(root)|..|p| - 5] + ".less"
  {
    var n := |DirPrefix(root)|;
    assert p == p[..n] + p[n..|p| - 5] + p[|p| - 5..];
  }
}
