/** The decisions taken by the local-extension watcher: for every local
    extension, which changed files are mirrored into `node_modules/<id>` and
    where each one lands. Watching, copying and logging are left to the
    environment; the watch callback is modelled as a function that returns the
    copy it would start, or `Skip`. */
module WatchLocalExtensions {
  import opened NodePath
  import opened Lodash

  /** A local extension: its package id and its source directory. */
  datatype Extension = Extension(id: string, path: Path)

  /** The pattern lists read from an extension's `.gitignore` and `.npmignore`
      (a missing file reads as an empty list). */
  datatype IgnoreFiles = IgnoreFiles(gitignore: seq<string>, npmignore: seq<string>)

  /** What the watch callback of one extension closes over. */
  datatype Watcher = Watcher(id: string, packagePath: Path, ignoreList: seq<string>, installedPath: Path)

  /** What the watch callback does with one changed file. */
  datatype Action = Copy(src: Path, dst: Path) | Skip

  /** `globToRegExp(glob).test(file)`: whether the glob written as the first
      path matches the second path. The glob library is not part of this model,
      so every property below holds for any matcher. */
  type Matcher = (Path, Path) -> bool

  const NodeModules := "node_modules"
  const GitDirectory := ".git"

  // ---------------------------------------------------------------------------
  // The ignore list

  /** The ignore list as line 17 computes it: `_.union` flattens only array
      arguments, so the bare string `.git` is dropped and only the two files'
      patterns remain. */
  function IgnoreListAsWritten(gitignore: seq<string>, npmignore: seq<string>): (r: seq<string>)
    ensures forall p :: p in r <==> p in gitignore || p in npmignore
  {
    var r := Union([Values(gitignore), Values(npmignore), Scalar(GitDirectory)]);
    assert forall p :: p in r <==> p in gitignore || p in npmignore by {
      forall p ensures p in r <==> p in gitignore || p in npmignore {
        var args := [Values(gitignore), Values(npmignore), Scalar(GitDirectory)];
        assert p in gitignore ==> args[0].Values? && p in args[0].values;
        assert p in npmignore ==> args[1].Values? && p in args[1].values;
      }
    }
    r
  }

  /** The ignore list with `.git` always present, as the line evidently means:
      every pattern of either file and `.git`, each once. */
  function IgnoreList(gitignore: seq<string>, npmignore: seq<string>): (r: seq<string>)
    ensures forall p :: p in r <==> p in gitignore || p in npmignore || p == GitDirectory
    ensures NoDuplicates(r)
  {
    var r := Union([Values(gitignore), Values(npmignore), Values([GitDirectory])]);
    assert forall p :: p in r <==> p in gitignore || p in npmignore || p == GitDirectory by {
      forall p ensures p in r <==> p in gitignore || p in npmignore || p == GitDirectory {
        var args := [Values(gitignore), Values(npmignore), Values([GitDirectory])];
        assert p in gitignore ==> args[0].Values? && p in args[0].values;
        assert p in npmignore ==> args[1].Values? && p in args[1].values;
        assert p == GitDirectory ==> args[2].Values? && p in args[2].values;
      }
    }
    r
  }

  // ---------------------------------------------------------------------------
  // Filter, destination and the watch callback

  /** A pattern of the ignore list anchored at the extension's directory:
      `path.join(packagePath, pattern)`. */
  function Anchor(packagePath: Path, pattern: string): Path {
    Join(packagePath, Parse(pattern))
  }

  /** `shouldCopyFile`: a file is copied exactly when no pattern of the ignore
      list, anchored at the extension's directory, matches it. */
  function ShouldCopyFile(matches: Matcher, packagePath: Path, ignoreList: seq<string>, filePath: Path): (r: bool)
    ensures r <==> forall p :: p in ignoreList ==> !matches(Anchor(packagePath, p), filePath)
  {
    !Some(ignoreList, p => matches(Anchor(packagePath, p), filePath))
  }

  /** Where an extension is installed: `path.join('node_modules', id)`. A
      relative, normalized path; for a plain id, `node_modules/<id>`. */
  function InstallPath(id: string): (r: Path)
    ensures !r.rooted && Normalized(r)
    ensures ValidName(id) ==> r == Path(false, [Name(NodeModules), Name(id)])
  {
    NodeModulesJoinPlainName(id);
    Join(Parse(NodeModules), Parse(id))
  }

  /** The per-extension set-up done inside the `forEach`. The watcher is built
      from the corrected ignore list, `IgnoreList`, which holds `.git`; the list
      line 17 computes is `IgnoreListAsWritten`, and `GitDirectoryCopiedAsWritten`
      shows where the two part. */
  function Setup(ext: Extension, files: IgnoreFiles): (w: Watcher)
    ensures w.id == ext.id && w.packagePath == ext.path && w.installedPath == InstallPath(ext.id)
    ensures forall p :: p in w.ignoreList <==> p in files.gitignore || p in files.npmignore || p == GitDirectory
  {
    Watcher(ext.id, ext.path, IgnoreList(files.gitignore, files.npmignore), InstallPath(ext.id))
  }

  /** The set-up of one extension, reading its ignore files with `readIgnoreFiles`. */
  function SetupFrom(readIgnoreFiles: Path -> IgnoreFiles): Extension -> Watcher {
    (ext: Extension) => Setup(ext, readIgnoreFiles(ext.path))
  }

  /** One value per element, in order. */
  function MapSeq<A, B>(xs: seq<A>, f: A -> B): (ys: seq<B>)
    ensures |ys| == |xs|
    ensures forall i :: 0 <= i < |xs| ==> ys[i] == f(xs[i])
  {
    if xs == [] then []
    else
      var init := xs[..|xs| - 1];
      assert forall i :: 0 <= i < |init| ==> init[i] == xs[i];
      MapSeq(init, f) + [f(xs[|xs| - 1])]
  }

  /** The watcher of every extension, in the order of the extensions. */
  function Registry(exts: seq<Extension>, readIgnoreFiles: Path -> IgnoreFiles): (ws: seq<Watcher>)
    ensures |ws| == |exts|
    ensures forall i :: 0 <= i < |exts| ==> ws[i] == Setup(exts[i], readIgnoreFiles(exts[i].path))
  {
    MapSeq(exts, SetupFrom(readIgnoreFiles))
  }

  /** `path.join(installedExtensionPath, path.relative(packagePath, filename))`:
      the destination is reached from the install path by the relative path
      that leads from the extension's directory (resolved against the working
      directory) to the file. */
  function Destination(cwd: Path, w: Watcher, filename: Path): (r: Path)
    requires cwd.rooted
    ensures r.rooted == w.installedPath.rooted && Normalized(r)
    ensures var rel := Relative(cwd, w.packagePath, filename);
            && Join(Resolve(cwd, w.packagePath), rel) == Resolve(cwd, filename)
            && r == Join(w.installedPath, rel)
  {
    JoinRelative(cwd, w.packagePath, filename);
    Join(w.installedPath, Relative(cwd, w.packagePath, filename))
  }

  /** The watch callback: copy the changed file to its destination when the
      filter lets it through, otherwise do nothing. `cwd` is the working
      directory `path.relative` resolves against. */
  function OnChange(matches: Matcher, cwd: Path, w: Watcher, filename: Path): (r: Action)
    requires cwd.rooted
    ensures r.Copy? <==> forall p :: p in w.ignoreList ==> !matches(Anchor(w.packagePath, p), filename)
    ensures r.Copy? ==> r.src == filename
  {
    if ShouldCopyFile(matches, w.packagePath, w.ignoreList, filename) then
      Copy(filename, Destination(cwd, w, filename))
    else Skip
  }

  /** `watchWorkingDirectories`: sets up one watcher per local extension. */
  method WatchWorkingDirectories(exts: seq<Extension>, readIgnoreFiles: Path -> IgnoreFiles)
    returns (watchers: seq<Watcher>)
    ensures watchers == Registry(exts, readIgnoreFiles)
  {
    watchers := [];
    for i := 0 to |exts|
      invariant watchers == MapSeq(exts[..i], SetupFrom(readIgnoreFiles))
    {
      assert exts[..i + 1][..i] == exts[..i] && exts[..i + 1][i] == exts[i];
      watchers := watchers + [Setup(exts[i], readIgnoreFiles(exts[i].path))];
    }
    assert exts[..|exts|] == exts;
  }

  // ---------------------------------------------------------------------------
  // Lemmas

  /** What `_.union` flattens out of the arguments on line 17, under both readings. */
  lemma FlattenThree(gitignore: seq<string>, npmignore: seq<string>)
    ensures FlattenArrays([Values(gitignore), Values(npmignore), Scalar(GitDirectory)]) == gitignore + npmignore
    ensures FlattenArrays([Values(gitignore), Values(npmignore), Values([GitDirectory])]) == gitignore + npmignore + [GitDirectory]
  {
    var last1: seq<UnionArg<string>> := [Scalar(GitDirectory)];
    var last2: seq<UnionArg<string>> := [Values([GitDirectory])];
    assert FlattenArrays(last1) == [] by { assert last1[1..] == []; }
    assert FlattenArrays(last2) == [GitDirectory] by { assert last2[1..] == []; }
    var mid1, mid2 := [Values(npmignore)] + last1, [Values(npmignore)] + last2;
    assert FlattenArrays(mid1) == npmignore by { assert mid1[1..] == last1; assert npmignore + [] == npmignore; }
    assert FlattenArrays(mid2) == npmignore + [GitDirectory] by { assert mid2[1..] == last2; }
    var all1, all2 := [Values(gitignore)] + mid1, [Values(gitignore)] + mid2;
    assert all1[1..] == mid1 && all2[1..] == mid2;
    assert all1 == [Values(gitignore), Values(npmignore), Scalar(GitDirectory)];
    assert all2 == [Values(gitignore), Values(npmignore), Values([GitDirectory])];
  }

  /** The corrected list is the list as written with `.git` appended unless one
      of the files already names it. */
  lemma IgnoreListAddsGitDirectory(gitignore: seq<string>, npmignore: seq<string>)
    ensures IgnoreList(gitignore, npmignore)
         == IgnoreListAsWritten(gitignore, npmignore)
          + (if GitDirectory in gitignore || GitDirectory in npmignore then [] else [GitDirectory])
  {
    var both := gitignore + npmignore;
    FlattenThree(gitignore, npmignore);
    var all := both + [GitDirectory];
    assert all[..|all| - 1] == both;
  }

  /** The ignore list holds the `.gitignore` patterns first, then the
      `.npmignore` patterns not already seen, then `.git` unless already seen,
      each in order of first occurrence. */
  lemma IgnoreListOrder(gitignore: seq<string>, npmignore: seq<string>)
    ensures IgnoreList(gitignore, npmignore)
         == Dedup(gitignore) + Without(Dedup(npmignore), gitignore)
          + (if GitDirectory in gitignore || GitDirectory in npmignore then [] else [GitDirectory])
  {
    IgnoreListAddsGitDirectory(gitignore, npmignore);
    DedupAppend(gitignore, npmignore);
    FlattenThree(gitignore, npmignore);
  }

  /** The copy decision reads the ignore list as a set: order and repetition
      of its patterns do not matter. */
  lemma DecisionIgnoresOrderAndRepetition(matches: Matcher, packagePath: Path, list1: seq<string>, list2: seq<string>, filePath: Path)
    requires forall p :: p in list1 <==> p in list2
    ensures ShouldCopyFile(matches, packagePath, list1, filePath) == ShouldCopyFile(matches, packagePath, list2, filePath)
  {
  }

  /** More ignore patterns can turn a copy into a skip, never a skip into a copy. */
  lemma MorePatternsOnlySkipMore(matches: Matcher, cwd: Path, w: Watcher, extra: seq<string>, filename: Path)
    requires cwd.rooted
    ensures OnChange(matches, cwd, w.(ignoreList := w.ignoreList + extra), filename).Copy?
        ==> OnChange(matches, cwd, w, filename) == OnChange(matches, cwd, w.(ignoreList := w.ignoreList + extra), filename)
  {
  }

  /** The decision over the two ignore files and the version-control directory. */
  lemma DecisionOverIgnoreFiles(matches: Matcher, packagePath: Path, files: IgnoreFiles, filePath: Path)
    ensures ShouldCopyFile(matches, packagePath, IgnoreList(files.gitignore, files.npmignore), filePath)
        <==> && (forall p :: p in files.gitignore ==> !matches(Anchor(packagePath, p), filePath))
             && (forall p :: p in files.npmignore ==> !matches(Anchor(packagePath, p), filePath))
             && !matches(Anchor(packagePath, GitDirectory), filePath)
  {
  }

  /** `path.join('node_modules', id)` of a plain id is `node_modules/<id>`. */
  lemma NodeModulesJoinPlainName(id: string)
    ensures ValidName(id) ==> Join(Parse(NodeModules), Parse(id)) == Path(false, [Name(NodeModules), Name(id)])
  {
    if ValidName(id) {
      ParseName(NodeModules);
      ParseName(id);
      assert [Name(NodeModules)] + [Name(id)] == [Name(NodeModules), Name(id)];
      NormalizeNormalized(Path(false, [Name(NodeModules), Name(id)]));
    }
  }

  /** A changed file `rest` below the extension's directory is copied to
      `rest` below the install path, unless a pattern matches it. */
  lemma ChangeBelowExtension(matches: Matcher, cwd: Path, ext: Extension, files: IgnoreFiles, rest: seq<Segment>)
    requires cwd.rooted && ext.path.rooted && AllNames(rest)
    ensures var w := Setup(ext, files);
            var file := Join(ext.path, Path(false, rest));
            OnChange(matches, cwd, w, file)
              == (if ShouldCopyFile(matches, ext.path, w.ignoreList, file)
                  then Copy(file, Join(InstallPath(ext.id), Path(false, rest)))
                  else Skip)
  {
    RelativeOfDescendant(cwd, ext.path, rest);
  }

  /** For a plain id, the copy of `<extension>/rest` is `node_modules/<id>/rest`. */
  lemma ChangeBelowPlainExtension(matches: Matcher, cwd: Path, ext: Extension, files: IgnoreFiles, rest: seq<Segment>)
    requires cwd.rooted && ext.path.rooted && ValidName(ext.id) && AllNames(rest)
    ensures var w := Setup(ext, files);
            var file := Join(ext.path, Path(false, rest));
            OnChange(matches, cwd, w, file)
              == (if ShouldCopyFile(matches, ext.path, w.ignoreList, file)
                  then Copy(file, Path(false, [Name(NodeModules), Name(ext.id)] + rest))
                  else Skip)
  {
    ChangeBelowExtension(matches, cwd, ext, files, rest);
    var install := [Name(NodeModules), Name(ext.id)];
    NormalizeAppendNames(install, rest, false);
    NormalizeNormalized(Path(false, install));
  }

  /** Wherever the changed file lies, its copy is the install path joined with
      the relative path that leads from the extension's directory (resolved
      against the working directory) to the file. */
  lemma CopyMirrorsRelativePosition(matches: Matcher, cwd: Path, w: Watcher, filename: Path)
    requires cwd.rooted
    ensures var r := OnChange(matches, cwd, w, filename);
            var rel := Relative(cwd, w.packagePath, filename);
            && Join(Resolve(cwd, w.packagePath), rel) == Resolve(cwd, filename)
            && (r.Copy? ==> r.dst == Join(w.installedPath, rel))
  {
    JoinRelative(cwd, w.packagePath, filename);
  }

  /** Each extension's callback depends only on that extension and its own
      ignore files: neither the other extensions nor their ignore files, nor
      its position in the list, change its decisions or destinations. */
  lemma ExtensionsAreIsolated(matches: Matcher, cwd: Path,
                              exts1: seq<Extension>, read1: Path -> IgnoreFiles, i: nat,
                              exts2: seq<Extension>, read2: Path -> IgnoreFiles, j: nat,
                              filename: Path)
    requires cwd.rooted && i < |exts1| && j < |exts2|
    requires exts1[i] == exts2[j] && read1(exts1[i].path) == read2(exts2[j].path)
    ensures OnChange(matches, cwd, Registry(exts1, read1)[i], filename)
         == OnChange(matches, cwd, Registry(exts2, read2)[j], filename)
  {
  }

  /** A matcher that accepts exactly the path the glob names, as glob-to-regexp
      does for a pattern without wildcards. */
  const ExactMatch: Matcher := (glob, file) => glob == file

  /** The version-control directory `<package>/.git` of an extension whose
      ignore files do not name it (for instance, an extension without ignore
      files): copied by the list as written, skipped by the corrected one. */
  lemma GitDirectoryCopiedAsWritten(packagePath: Path, gitignore: seq<string>, npmignore: seq<string>)
    requires forall p :: p in gitignore || p in npmignore ==> Anchor(packagePath, p) != Anchor(packagePath, GitDirectory)
    ensures Anchor(packagePath, GitDirectory) == Join(packagePath, Path(false, [Name(GitDirectory)]))
    ensures ShouldCopyFile(ExactMatch, packagePath, IgnoreListAsWritten(gitignore, npmignore), Anchor(packagePath, GitDirectory))
    ensures !ShouldCopyFile(ExactMatch, packagePath, IgnoreList(gitignore, npmignore), Anchor(packagePath, GitDirectory))
  {
    ParseName(GitDirectory);
    assert ExactMatch(Anchor(packagePath, GitDirectory), Anchor(packagePath, GitDirectory));
  }
}
