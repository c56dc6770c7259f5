/**
 * The `execute` goal of the plugin: check the input root, load the excluded
 * keys, walk the input tree and transcode every regular `.properties` file
 * to the mirrored path under the output root, stopping at the first file
 * that fails.
 *
 * The filesystem enters as values: whether the input root and the
 * exclusions file exist, the excluded keys as loaded, and the entries of
 * the walk in the order the walk yields them.
 */
module EncryptEnvProperties {
  import opened Wrappers
  import opened JavaString
  import opened Paths
  import opened Transcoder

  /** The suffix that selects the files to encrypt. */
  const PropertiesSuffix: string := "." + "properties"

  /** The fixed layout below the project's base directory. */
  function InputRoot(baseDir: Path): (root: Path)
  {
    baseDir + ["src", "main", "properties-noencript", "properties"]
  }

  function OutputRoot(baseDir: Path): (root: Path)
  {
    baseDir + ["properties"]
  }

  function ExclusionsFile(baseDir: Path): (file: Path)
  {
    baseDir + ["src", "main", "properties-noencript", "encrypt-env.properties"]
  }

  /**
   * One path yielded by the walk: whether it is a regular file, and its
   * lines as `readLine` returns them, or None when reading it, encrypting
   * one of its values, writing its output or creating the output's
   * directories fails.
   */
  datatype Entry = Entry(path: Path, regular: bool, content: Option<seq<string>>)

  /** One output file: where it lands and the text written to it. */
  datatype Written = Written(dest: Path, text: string)

  datatype Failure =
    | MissingInputRoot(root: Path)
    | FileFailed(file: Path)

  /** The files written, in order, and the failure that ended the run, if any. */
  datatype Outcome = Outcome(written: seq<Written>, failure: Option<Failure>)

  /** The filter on the text of a path. */
  predicate IsPropertiesFile(p: Path)
  {
    EndsWith(PathString(p), PropertiesSuffix)
  }

  /** The filter selects exactly the paths whose last name ends with the suffix. */
  lemma IsPropertiesFileByName(p: Path)
    ensures IsPropertiesFile(p) <==> p != [] && EndsWith(p[|p| - 1], PropertiesSuffix)
  {
    PathStringEndsWith(p, PropertiesSuffix);
  }

  /** Both filters of the walk: a regular file with the suffix. */
  predicate Selected(e: Entry)
  {
    e.regular && IsPropertiesFile(e.path)
  }

  /** The output path of an input file: its path relative to the input root, below the output root. */
  function Mirror(inputRoot: Path, outputRoot: Path, file: Path): (dest: Path)
  {
    Resolve(outputRoot, Relativize(inputRoot, file))
  }

  /** A file below the input root lands at the same relative path below the output root. */
  lemma MirrorUnder(inputRoot: Path, outputRoot: Path, rel: Path)
    ensures Mirror(inputRoot, outputRoot, inputRoot + rel) == outputRoot + rel
  {
    RelativizeUnder(inputRoot, rel);
  }

  /** Relative to the output root, the output path is what the input path is relative to the input root. */
  lemma MirrorKeepsRelativePath(inputRoot: Path, outputRoot: Path, file: Path)
    ensures Relativize(outputRoot, Mirror(inputRoot, outputRoot, file)) == Relativize(inputRoot, file)
  {
    RelativizeUnder(outputRoot, Relativize(inputRoot, file));
  }

  /** Mirroring back from the output tree recovers the input path. */
  lemma MirrorBack(inputRoot: Path, outputRoot: Path, file: Path)
    requires IsUnder(inputRoot, file)
    ensures Mirror(outputRoot, inputRoot, Mirror(inputRoot, outputRoot, file)) == file
  {
    var rel := file[|inputRoot|..];
    assert file == inputRoot + rel;
    MirrorUnder(inputRoot, outputRoot, rel);
    MirrorUnder(outputRoot, inputRoot, rel);
  }

  /** Distinct input files get distinct output files. */
  lemma MirrorInjective(inputRoot: Path, outputRoot: Path, file1: Path, file2: Path)
    requires IsUnder(inputRoot, file1) && IsUnder(inputRoot, file2)
    requires Mirror(inputRoot, outputRoot, file1) == Mirror(inputRoot, outputRoot, file2)
    ensures file1 == file2
  {
    MirrorBack(inputRoot, outputRoot, file1);
    MirrorBack(inputRoot, outputRoot, file2);
  }

  /** The guard on the input root: a missing root is the failure of the whole run. */
  function CheckInputRoot(rootExists: bool, root: Path): (r: Option<Failure>)
    ensures r.None? <==> rootExists
    ensures r.Some? ==> r.value == MissingInputRoot(root)
  {
    if !rootExists then Some(MissingInputRoot(root)) else None
  }

  /**
   * `loadExcludedKeys`: the keys of the exclusions file, or no key at all
   * when the file is absent or cannot be read (`loaded` is None).
   */
  function LoadExcludedKeys(fileExists: bool, loaded: Option<set<string>>): (r: set<string>)
    ensures !fileExists ==> r == {}
    ensures loaded.None? ==> r == {}
    ensures fileExists && loaded.Some? ==> r == loaded.value
  {
    if !fileExists then {}
    else match loaded
      case None => {}
      case Some(keys) => keys
  }

  /** The entries the walk's filters let through, in walk order. */
  function SelectedFiles(tree: seq<Entry>): (files: seq<Entry>)
    ensures |files| <= |tree|
    ensures forall e :: e in files <==> e in tree && Selected(e)
  {
    if tree == [] then []
    else if Selected(tree[0]) then [tree[0]] + SelectedFiles(tree[1..])
    else SelectedFiles(tree[1..])
  }

  /** The position of the first selected file that cannot be processed, or the number of files. */
  function FirstFailure(files: seq<Entry>): (k: nat)
    ensures k <= |files|
    ensures forall j :: 0 <= j < k ==> files[j].content.Some?
    ensures k < |files| ==> files[k].content.None?
  {
    if files == [] || files[0].content.None? then 0 else 1 + FirstFailure(files[1..])
  }

  /** What processing a file writes. */
  function Output(inputRoot: Path, outputRoot: Path, file: Path, lines: seq<string>,
                  excluded: set<string>, enc: string -> string): (w: Written)
  {
    Written(Mirror(inputRoot, outputRoot, file), FileText(Transcode(lines, excluded, enc)))
  }

  /** Processing the walked entries one after the other, stopping at the first failing file. */
  function ProcessTree(tree: seq<Entry>, inputRoot: Path, outputRoot: Path,
                       excluded: set<string>, enc: string -> string): (o: Outcome)
    ensures |o.written| <= |tree|
    ensures o.failure.Some? ==> o.failure.value.FileFailed?
  {
    if tree == [] then Outcome([], None)
    else
      var e := tree[0];
      if !Selected(e) then ProcessTree(tree[1..], inputRoot, outputRoot, excluded, enc)
      else match e.content
        case None => Outcome([], Some(FileFailed(e.path)))
        case Some(lines) =>
          var rest := ProcessTree(tree[1..], inputRoot, outputRoot, excluded, enc);
          Outcome([Output(inputRoot, outputRoot, e.path, lines, excluded, enc)] + rest.written, rest.failure)
  }

  /** The whole run. */
  function ExecuteOutcome(baseDir: Path, inputExists: bool, exclusionsExist: bool,
                          exclusionsLoaded: Option<set<string>>, tree: seq<Entry>,
                          enc: string -> string): (o: Outcome)
  {
    match CheckInputRoot(inputExists, InputRoot(baseDir))
    case Some(failure) => Outcome([], Some(failure))
    case None =>
      ProcessTree(tree, InputRoot(baseDir), OutputRoot(baseDir),
                  LoadExcludedKeys(exclusionsExist, exclusionsLoaded), enc)
  }

  /** `execute`: the guard on the input root, the exclusions, then the walk. */
  method Execute(baseDir: Path, inputExists: bool, exclusionsExist: bool,
                 exclusionsLoaded: Option<set<string>>, tree: seq<Entry>, enc: string -> string)
    returns (r: Outcome)
    ensures r == ExecuteOutcome(baseDir, inputExists, exclusionsExist, exclusionsLoaded, tree, enc)
  {
    var inputRoot := InputRoot(baseDir);
    var outputRoot := OutputRoot(baseDir);
    var missing := CheckInputRoot(inputExists, inputRoot);
    if missing.Some? {
      return Outcome([], missing);
    }
    var excluded := LoadExcludedKeys(exclusionsExist, exclusionsLoaded);
    r := ProcessFiles(tree, inputRoot, outputRoot, excluded, enc);
  }

  /**
   * The `forEach` over the walk: the filters, then for each selected file
   * its mirrored destination and `EncryptFile`; the first failing file ends
   * the loop with the files written so far left in place.
   */
  method ProcessFiles(tree: seq<Entry>, inputRoot: Path, outputRoot: Path,
                      excluded: set<string>, enc: string -> string)
    returns (r: Outcome)
    ensures r == ProcessTree(tree, inputRoot, outputRoot, excluded, enc)
  {
    ghost var total := ProcessTree(tree, inputRoot, outputRoot, excluded, enc);
    var written: seq<Written> := [];
    var i := 0;
    assert tree[0..] == tree;
    while i < |tree|
      invariant 0 <= i <= |tree|
      invariant Progress(total, tree, i, written, inputRoot, outputRoot, excluded, enc)
    {
      var file := tree[i];
      ProcessStep(total, tree, i, written, inputRoot, outputRoot, excluded, enc);
      if file.regular && IsPropertiesFile(file.path) {
        match file.content {
          case None =>
            return Outcome(written, Some(FileFailed(file.path)));
          case Some(lines) =>
            var output := ProcessFile(inputRoot, outputRoot, file.path, lines, excluded, enc);
            written := written + [output];
        }
      }
      i := i + 1;
    }
    assert tree[i..] == [];
    r := Outcome(written, None);
  }

  /** The body of the `forEach` for a file that can be processed: its destination, then `EncryptFile`. */
  method ProcessFile(inputRoot: Path, outputRoot: Path, file: Path, lines: seq<string>,
                     excluded: set<string>, enc: string -> string)
    returns (output: Written)
    ensures output == Output(inputRoot, outputRoot, file, lines, excluded, enc)
  {
    var relativePath := Relativize(inputRoot, file);
    var dest := Resolve(outputRoot, relativePath);
    var out, text := EncryptFile(lines, excluded, enc);
    output := Written(dest, text);
  }

  /**
   * The loop's invariant: the outcome `total` of the whole tree is what was
   * written for the first `i` entries followed by the outcome of the
   * remaining ones.
   */
  predicate Progress(total: Outcome, tree: seq<Entry>, i: nat, written: seq<Written>,
                     inputRoot: Path, outputRoot: Path, excluded: set<string>, enc: string -> string)
    requires i <= |tree|
  {
    var rest := ProcessTree(tree[i..], inputRoot, outputRoot, excluded, enc);
    total == Outcome(written + rest.written, rest.failure)
  }

  /** One step of the loop, at position `i`, in each of its three cases. */
  lemma ProcessStep(total: Outcome, tree: seq<Entry>, i: nat, written: seq<Written>,
                    inputRoot: Path, outputRoot: Path, excluded: set<string>, enc: string -> string)
    requires i < |tree|
    requires Progress(total, tree, i, written, inputRoot, outputRoot, excluded, enc)
    ensures var e := tree[i];
      && (!Selected(e) ==> Progress(total, tree, i + 1, written, inputRoot, outputRoot, excluded, enc))
      && (Selected(e) && e.content.None? ==> total == Outcome(written, Some(FileFailed(e.path))))
      && (Selected(e) && e.content.Some? ==>
            Progress(total, tree, i + 1, written + [Output(inputRoot, outputRoot, e.path, e.content.value, excluded, enc)],
                     inputRoot, outputRoot, excluded, enc))
  {
    ProcessTreeAt(tree, i, inputRoot, outputRoot, excluded, enc);
    var e := tree[i];
    if Selected(e) && e.content.Some? {
      var w := Output(inputRoot, outputRoot, e.path, e.content.value, excluded, enc);
      var next := ProcessTree(tree[i + 1..], inputRoot, outputRoot, excluded, enc);
      assert written + ([w] + next.written) == (written + [w]) + next.written;
    }
  }

  /** One step of the walk, at position `i`. */
  lemma ProcessTreeAt(tree: seq<Entry>, i: nat, inputRoot: Path, outputRoot: Path,
                      excluded: set<string>, enc: string -> string)
    requires i < |tree|
    ensures var here := ProcessTree(tree[i..], inputRoot, outputRoot, excluded, enc);
      var next := ProcessTree(tree[i + 1..], inputRoot, outputRoot, excluded, enc);
      var e := tree[i];
      && (!Selected(e) ==> here == next)
      && (Selected(e) && e.content.None? ==> here == Outcome([], Some(FileFailed(e.path))))
      && (Selected(e) && e.content.Some? ==>
            here == Outcome([Output(inputRoot, outputRoot, e.path, e.content.value, excluded, enc)] + next.written,
                            next.failure))
  {
    assert tree[i..][0] == tree[i] && tree[i..][1..] == tree[i + 1..];
  }

  /**
   * Where processing a tree stops: at the first selected file that fails,
   * which is then the failure, after writing one file per selected file
   * before it.
   */
  lemma {:induction false} ProcessTreeStops(tree: seq<Entry>, inputRoot: Path, outputRoot: Path,
                                            excluded: set<string>, enc: string -> string)
    ensures var o, files := ProcessTree(tree, inputRoot, outputRoot, excluded, enc), SelectedFiles(tree);
      var k := FirstFailure(files);
      && |o.written| == k
      && o.failure == if k < |files| then Some(FileFailed(files[k].path)) else None
  {
    if tree != [] {
      ProcessTreeStops(tree[1..], inputRoot, outputRoot, excluded, enc);
      var e := tree[0];
      if Selected(e) {
        var files, rest := SelectedFiles(tree), SelectedFiles(tree[1..]);
        assert files == [e] + rest;
        if e.content.Some? {
          assert FirstFailure(files) == 1 + FirstFailure(rest);
        }
      }
    }
  }

  /**
   * What processing a tree writes: the `j`-th file written is the `j`-th
   * selected file, at its mirrored path, with its transcoded text.
   */
  lemma {:induction false} ProcessTreeWrites(tree: seq<Entry>, inputRoot: Path, outputRoot: Path,
                                             excluded: set<string>, enc: string -> string, j: nat)
    requires j < |ProcessTree(tree, inputRoot, outputRoot, excluded, enc).written|
    ensures var o, files := ProcessTree(tree, inputRoot, outputRoot, excluded, enc), SelectedFiles(tree);
      && j < FirstFailure(files)
      && o.written[j] == Output(inputRoot, outputRoot, files[j].path, files[j].content.value, excluded, enc)
  {
    ProcessTreeStops(tree, inputRoot, outputRoot, excluded, enc);
    var e := tree[0];
    var next := ProcessTree(tree[1..], inputRoot, outputRoot, excluded, enc);
    if !Selected(e) {
      ProcessTreeWrites(tree[1..], inputRoot, outputRoot, excluded, enc, j);
    } else {
      var files, rest := SelectedFiles(tree), SelectedFiles(tree[1..]);
      assert files == [e] + rest;
      if j > 0 {
        ProcessTreeWrites(tree[1..], inputRoot, outputRoot, excluded, enc, j - 1);
        assert files[j] == rest[j - 1];
      }
    }
  }

  /** When every selected file can be processed, the run writes one output per selected file. */
  lemma ProcessTreeComplete(tree: seq<Entry>, inputRoot: Path, outputRoot: Path,
                            excluded: set<string>, enc: string -> string)
    requires forall e :: e in tree && Selected(e) ==> e.content.Some?
    ensures var o := ProcessTree(tree, inputRoot, outputRoot, excluded, enc);
      o.failure.None? && |o.written| == |SelectedFiles(tree)|
  {
    ProcessTreeStops(tree, inputRoot, outputRoot, excluded, enc);
  }

  /** Paths in walk order are pairwise distinct. */
  predicate DistinctPaths(tree: seq<Entry>)
  {
    forall i, j :: 0 <= i < j < |tree| ==> tree[i].path != tree[j].path
  }

  lemma {:induction false} SelectedFilesDistinct(tree: seq<Entry>)
    requires DistinctPaths(tree)
    ensures DistinctPaths(SelectedFiles(tree))
  {
    if tree != [] {
      assert DistinctPaths(tree[1..]);
      SelectedFilesDistinct(tree[1..]);
      if Selected(tree[0]) {
        var files := SelectedFiles(tree);
        var rest := SelectedFiles(tree[1..]);
        assert files == [tree[0]] + rest;
        forall j | 0 < j < |files|
          ensures files[0].path != files[j].path
        {
          assert files[j] in rest;
          var m :| 0 <= m < |tree[1..]| && tree[1..][m] == files[j];
          assert tree[m + 1] == files[j];
        }
      }
    }
  }

  /**
   * A walk below the input root that yields each path once writes each
   * output file once: no two written files share a destination.
   */
  lemma DistinctDestinations(tree: seq<Entry>, inputRoot: Path, outputRoot: Path,
                             excluded: set<string>, enc: string -> string)
    requires forall e :: e in tree ==> IsUnder(inputRoot, e.path)
    requires DistinctPaths(tree)
    ensures var w := ProcessTree(tree, inputRoot, outputRoot, excluded, enc).written;
      forall i, j :: 0 <= i < j < |w| ==> w[i].dest != w[j].dest
  {
    SelectedFilesDistinct(tree);
    var files := SelectedFiles(tree);
    var w := ProcessTree(tree, inputRoot, outputRoot, excluded, enc).written;
    forall i, j | 0 <= i < j < |w|
      ensures w[i].dest != w[j].dest
    {
      ProcessTreeWrites(tree, inputRoot, outputRoot, excluded, enc, i);
      ProcessTreeWrites(tree, inputRoot, outputRoot, excluded, enc, j);
      assert files[i] in files && files[j] in files;
      if w[i].dest == w[j].dest {
        MirrorInjective(inputRoot, outputRoot, files[i].path, files[j].path);
      }
    }
  }

  /** A missing input root fails the run before anything is written, and is the only way to that failure. */
  lemma MissingInputRootFails(baseDir: Path, inputExists: bool, exclusionsExist: bool,
                              exclusionsLoaded: Option<set<string>>, tree: seq<Entry>, enc: string -> string)
    ensures var o := ExecuteOutcome(baseDir, inputExists, exclusionsExist, exclusionsLoaded, tree, enc);
      && (!inputExists ==> o == Outcome([], Some(MissingInputRoot(InputRoot(baseDir)))))
      && (o.failure == Some(MissingInputRoot(InputRoot(baseDir))) <==> !inputExists)
  {
  }

  /** A missing exclusions file behaves exactly like an empty one. */
  lemma MissingExclusionsIsEmpty(baseDir: Path, inputExists: bool, loaded: Option<set<string>>,
                                 tree: seq<Entry>, enc: string -> string)
    ensures ExecuteOutcome(baseDir, inputExists, false, loaded, tree, enc)
         == ExecuteOutcome(baseDir, inputExists, true, Some({}), tree, enc)
  {
  }

  /**
   * Every output file lies below the output root and outside the input
   * tree, so the run never writes into its input; the exclusions file is
   * not inside the input tree either.
   */
  lemma OutputOutsideInput(baseDir: Path, inputExists: bool, exclusionsExist: bool,
                           exclusionsLoaded: Option<set<string>>, tree: seq<Entry>, enc: string -> string)
    ensures !IsUnder(InputRoot(baseDir), ExclusionsFile(baseDir))
    ensures var w := ExecuteOutcome(baseDir, inputExists, exclusionsExist, exclusionsLoaded, tree, enc).written;
      forall j :: 0 <= j < |w| ==>
        IsUnder(OutputRoot(baseDir), w[j].dest) && !IsUnder(InputRoot(baseDir), w[j].dest)
  {
    var w := ExecuteOutcome(baseDir, inputExists, exclusionsExist, exclusionsLoaded, tree, enc).written;
    var inputRoot, outputRoot := InputRoot(baseDir), OutputRoot(baseDir);
    assert ExclusionsFile(baseDir)[|baseDir| + 3] != inputRoot[|baseDir| + 3];
    if inputExists {
      var excluded := LoadExcludedKeys(exclusionsExist, exclusionsLoaded);
      var files := SelectedFiles(tree);
      forall j | 0 <= j < |w|
        ensures IsUnder(outputRoot, w[j].dest) && !IsUnder(inputRoot, w[j].dest)
      {
        ProcessTreeWrites(tree, inputRoot, outputRoot, excluded, enc, j);
        var dest := w[j].dest;
        assert dest == outputRoot + Relativize(inputRoot, files[j].path);
        assert dest[|baseDir|] == "properties" != inputRoot[|baseDir|];
      }
    }
  }

  /**
   * For a walk that stays below the input root, as `Files.walk` does, the
   * `j`-th written file's destination is the output root followed by the
   * names of the `j`-th selected file below the input root.
   */
  lemma WrittenMirrors(tree: seq<Entry>, inputRoot: Path, outputRoot: Path,
                       excluded: set<string>, enc: string -> string, j: nat)
    requires forall e :: e in tree ==> IsUnder(inputRoot, e.path)
    requires j < |ProcessTree(tree, inputRoot, outputRoot, excluded, enc).written|
    ensures var w, files := ProcessTree(tree, inputRoot, outputRoot, excluded, enc).written, SelectedFiles(tree);
      && j < |files| && IsUnder(inputRoot, files[j].path)
      && w[j].dest == outputRoot + files[j].path[|inputRoot|..]
  {
    var files := SelectedFiles(tree);
    ProcessTreeWrites(tree, inputRoot, outputRoot, excluded, enc, j);
    assert files[j] in files;
    OutputDest(inputRoot, outputRoot, files[j].path, files[j].content.value, excluded, enc);
  }

  lemma OutputDest(inputRoot: Path, outputRoot: Path, file: Path, lines: seq<string>,
                   excluded: set<string>, enc: string -> string)
    requires IsUnder(inputRoot, file)
    ensures Output(inputRoot, outputRoot, file, lines, excluded, enc).dest == outputRoot + file[|inputRoot|..]
  {
    assert file == inputRoot + file[|inputRoot|..];
    MirrorUnder(inputRoot, outputRoot, file[|inputRoot|..]);
  }
}
