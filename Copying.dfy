/**
 * The two copy helpers: `copyImage`, behind the standalone `--copy source:dest`, and
 * `copyFileToOutput`, which the results section calls for every selected file. Both copy a
 * file under its base name into a directory, and under a timestamped name when that base name
 * is already taken there. The time `Date.now()` returns is a parameter.
 */
module Copying {
  import opened Common
  import opened PathNames
  import opened FileSystem

  /** The target of a copy of `src` into `dir`: the same name, or the timestamped one if taken. */
  function Destination(e: Entries, src: Path, dir: Path, now: nat): Path
  {
    var fileName := BaseName(src);
    var destPath := Join(dir, fileName);
    if destPath in e then Join(dir, StampedName(fileName, now)) else destPath
  }

  /** What `copyImage(src, destDir)` returns and leaves on disk, when `Date.now()` is `now`. */
  function CopyImageResult(e: Entries, src: Path, destDir: Path, now: nat): (bool, Entries)
  {
    if src !in e || !IsImagePath(src) then (false, e)
    else
      var made := if destDir in e then Some(e) else MakeDirectorySync(e, destDir);
      match made
      case None => (false, e)
      case Some(e1) =>
        match CopyFileSync(e1, src, Destination(e1, src, destDir, now))
        case None => (false, e1)
        case Some(e2) => (true, e2)
  }

  /**
   * `copyImage(sourcePath, destDir)`: it refuses a missing source and a name without one of
   * the image extensions, creates the destination directory when it is missing, and copies.
   * Whatever throws is caught and reported as `false`.
   */
  method CopyImage(fs: Disk, sourcePath: Path, destDir: Path, now: nat) returns (ok: bool)
    modifies fs
    ensures (ok, fs.entries) == CopyImageResult(old(fs.entries), sourcePath, destDir, now)
  {
    if !fs.Exists(sourcePath) {
      return false;
    }
    var fileExt := LowerAscii(ExtName(sourcePath));
    if fileExt !in ImageExtensions {
      return false;
    }
    if !fs.Exists(destDir) {
      var made := fs.MakeDirectory(destDir);
      if !made {
        return false;
      }
    }
    var fileName := BaseName(sourcePath);
    var destPath := Join(destDir, fileName);
    if fs.Exists(destPath) {
      var newDestPath := Join(destDir, StampedName(fileName, now));
      ok := fs.CopyFile(sourcePath, newDestPath);
    } else {
      ok := fs.CopyFile(sourcePath, destPath);
    }
  }

  /** What `copyFileToOutput(file)` leaves on disk; a failed copy is caught and changes nothing. */
  function CopyToOutputResult(e: Entries, file: Path, outputDir: Path, now: nat): Entries
  {
    match CopyFileSync(e, file, Destination(e, file, outputDir, now))
    case None => e
    case Some(e') => e'
  }

  /** `copyFileToOutput(file)` with `config.outputDir` as `outputDir`. */
  method CopyFileToOutput(fs: Disk, file: Path, outputDir: Path, now: nat)
    modifies fs
    ensures fs.entries == CopyToOutputResult(old(fs.entries), file, outputDir, now)
  {
    var fileName := BaseName(file);
    var destPath := Join(outputDir, fileName);
    var copied;
    if fs.Exists(destPath) {
      var newDestPath := Join(outputDir, StampedName(fileName, now));
      copied := fs.CopyFile(file, newDestPath);
    } else {
      copied := fs.CopyFile(file, destPath);
    }
  }

  /** Successive `copyFileToOutput` calls for `files`; the `k`-th copy runs at `clock(k)`. */
  function CopiesResult(e: Entries, files: seq<Path>, outputDir: Path, clock: nat -> nat)
    : Entries
  {
    if files == [] then e
    else
      var n := |files| - 1;
      CopyToOutputResult(CopiesResult(e, files[..n], outputDir, clock), files[n], outputDir,
                         clock(n))
  }

  // ---------------------------------------------------------------------------------------
  // Properties

  /** Joining to one directory tells names apart. */
  lemma JoinInjective(dir: Path, a: string, b: string)
    ensures Join(dir, a) == Join(dir, b) <==> a == b
  {
    if Join(dir, a) == Join(dir, b) {
      assert a == Join(dir, a)[|dir| + 1..];
    }
  }

  /**
   * The target lies in `dir`; it is the joined base name when that is free, and another path
   * when it is taken.
   */
  lemma DestinationFacts(e: Entries, src: Path, dir: Path, now: nat)
    ensures var fileName, dst := BaseName(src), Destination(e, src, dir, now);
      && Parent(dst) == dir
      && (Join(dir, fileName) !in e ==> dst == Join(dir, fileName))
      && (Join(dir, fileName) in e ==> dst != Join(dir, fileName))
  {
    var fileName := BaseName(src);
    var stamped := StampedName(fileName, now);
    StampedNameHasNoSlash(fileName, now);
    StampedNameIsNew(fileName, now);
    JoinInjective(dir, fileName, stamped);
    ParentOfJoin(dir, fileName);
    ParentOfJoin(dir, stamped);
  }

  /** The target carries the extension of the source, so it is an image when the source is. */
  lemma DestinationKeepsExtension(e: Entries, src: Path, dir: Path, now: nat)
    requires BaseName(src) != "" && BaseName(src) != ".."
    ensures ExtName(Destination(e, src, dir, now)) == ExtName(src)
  {
    var fileName := BaseName(src);
    var stamped := StampedName(fileName, now);
    StampedNameKeepsExtension(fileName, now);
    StampedNameIsNew(fileName, now);
    JoinBaseName(dir, fileName);
    JoinBaseName(dir, stamped);
  }

  /** The base name of a joined path is the name joined. */
  lemma JoinBaseName(dir: Path, name: string)
    requires '/' !in name
    ensures name != "" ==> BaseName(Join(dir, name)) == name
  {
    var p := Join(dir, name);
    if name != "" {
      assert TrimTrailingSlashes(p) == p;
      ParentOfJoin(dir, name);
      assert p[|dir| + 1..] == name;
    }
  }

  /**
   * `copyImage` returns `false` and leaves the disk as it was when the source does not exist
   * or its lower-cased extension is not one of the eight image extensions.
   */
  lemma CopyImageRejects(e: Entries, src: Path, destDir: Path, now: nat)
    requires src !in e || LowerAscii(ExtName(src)) !in ImageExtensions
    ensures CopyImageResult(e, src, destDir, now) == (false, e)
  {
  }

  /**
   * When `copyImage` returns `false`, the only change it can have made is the creation of the
   * missing destination directory: the copy itself failed after `mkdirSync` returned.
   */
  lemma CopyImageFailure(e: Entries, src: Path, destDir: Path, now: nat)
    requires !CopyImageResult(e, src, destDir, now).0
    ensures var after := CopyImageResult(e, src, destDir, now).1;
      after == e || (destDir !in e && MakeDirectorySync(e, destDir) == Some(after))
  {
  }

  /**
   * When `copyImage` returns `true`, the destination directory exists, the source's data sits
   * at the target in it, a file already there under the base name is untouched, and nothing
   * but the target and the directories `mkdirSync` made sure of has changed.
   */
  lemma CopyImageSuccess(e: Entries, src: Path, destDir: Path, now: nat)
    requires CopyImageResult(e, src, destDir, now).0
    ensures var after := CopyImageResult(e, src, destDir, now).1;
      var original := Join(destDir, BaseName(src));
      var dst := Destination(e, src, destDir, now);
      && IsFile(e, src) && IsImagePath(src)
      && IsDirectory(after, destDir)
      && after[dst] == File(e[src].data)
      && (original in e ==> dst != original && original in after && after[original] == e[original])
      && (forall q :: q != dst && q !in Ancestry(destDir) ==>
            (q in after <==> q in e) && (q in e ==> after[q] == e[q]))
  {
    var original := Join(destDir, BaseName(src));
    var e1 := if destDir in e then e else MakeDirectorySync(e, destDir).value;
    MakeDirectoryEffect(e, destDir);
    AncestryPrefixes(destDir);
    assert original !in Ancestry(destDir);
    assert Destination(e1, src, destDir, now) == Destination(e, src, destDir, now);
    DestinationFacts(e, src, destDir, now);
    var dst := Destination(e, src, destDir, now);
    CopyFileEffect(e1, src, dst);
    assert IsFile(e, src);
  }

  /**
   * `copyFileToOutput` never writes the file already present under the base name, writes
   * nothing outside `outputDir`, and either changes nothing or puts the data of `file` at
   * the target.
   */
  lemma CopyToOutputEffect(e: Entries, file: Path, outputDir: Path, now: nat)
    ensures var after := CopyToOutputResult(e, file, outputDir, now);
      var original := Join(outputDir, BaseName(file));
      var dst := Destination(e, file, outputDir, now);
      && (original in e ==> original in after && after[original] == e[original])
      && (after == e || (IsFile(e, file) && after == e[dst := File(e[file].data)]))
      && Parent(dst) == outputDir
  {
    var dst := Destination(e, file, outputDir, now);
    DestinationFacts(e, file, outputDir, now);
    if CopyFileSync(e, file, dst).Some? {
      CopyFileEffect(e, file, dst);
      CopyToTarget(e, file, outputDir, now, dst);
    } else {
      CopyToNowhere(e, file, outputDir, now, dst);
    }
  }

  /** A copy that throws is caught and leaves the disk as it was. */
  lemma CopyToNowhere(e: Entries, src: Path, dir: Path, now: nat, dst: Path)
    requires Destination(e, src, dir, now) == dst && CopyFileSync(e, src, dst).None?
    ensures CopyToOutputResult(e, src, dir, now) == e
  {
  }

  /** Entries outside `dir` are the same in `e` and `e'`. */
  ghost predicate SameOutside(e: Entries, e': Entries, dir: Path)
  {
    forall q :: Parent(q) != dir ==> (q in e' <==> q in e) && (q in e ==> e'[q] == e[q])
  }

  /** A run of `copyFileToOutput` calls writes nothing outside the output directory. */
  lemma {:induction false} CopiesStayInOutput(e: Entries, files: seq<Path>, outputDir: Path,
                                              clock: nat -> nat)
    ensures SameOutside(e, CopiesResult(e, files, outputDir, clock), outputDir)
  {
    if files != [] {
      var n := |files| - 1;
      var mid := CopiesResult(e, files[..n], outputDir, clock);
      CopiesStayInOutput(e, files[..n], outputDir, clock);
      CopyToOutputEffect(mid, files[n], outputDir, clock(n));
    }
  }

  /**
   * The timestamped name is not checked for being free: when the base name is taken in `dir`
   * and a file already carries the timestamped name, the copy replaces that file, while the
   * file under the base name stays as it was.
   */
  lemma StampedTargetMayBeTaken(e: Entries, src: Path, dir: Path, now: nat)
    requires IsFile(e, src) && IsDirectory(e, dir)
    requires Join(dir, BaseName(src)) in e
    requires IsFile(e, Join(dir, StampedName(BaseName(src), now)))
    ensures CopyToOutputResult(e, src, dir, now)
            == e[Join(dir, StampedName(BaseName(src), now)) := File(e[src].data)]
    ensures Join(dir, StampedName(BaseName(src), now)) != Join(dir, BaseName(src))
  {
    var stamped := Join(dir, StampedName(BaseName(src), now));
    StampedDestination(e, src, dir, now);
    CopyToTarget(e, src, dir, now, stamped);
  }

  /** A copy whose target can be written puts the source's data there. */
  lemma CopyToTarget(e: Entries, src: Path, dir: Path, now: nat, dst: Path)
    requires Destination(e, src, dir, now) == dst
    requires IsFile(e, src) && IsDirectory(e, Parent(dst)) && !IsDirectory(e, dst)
    ensures CopyToOutputResult(e, src, dir, now) == e[dst := File(e[src].data)]
  {
  }

  /** When the base name is taken, the target is the timestamped name, another path in `dir`. */
  lemma StampedDestination(e: Entries, src: Path, dir: Path, now: nat)
    requires Join(dir, BaseName(src)) in e
    ensures var original, stamped := Join(dir, BaseName(src)), Join(dir, StampedName(BaseName(src), now));
      && Destination(e, src, dir, now) == stamped
      && Parent(stamped) == dir && stamped != original
  {
    DestinationFacts(e, src, dir, now);
  }

  /**
   * `copyImage` may create the destination directory and still return `false`: a directory
   * whose name carries an image extension passes both checks, `mkdirSync` succeeds, and
   * `copyFileSync` then throws because the source is not a file.
   */
  lemma CopyImageFailsAfterMakingDirectory(e: Entries, src: Path, destDir: Path, now: nat)
    requires IsDirectory(e, src) && IsImagePath(src)
    requires destDir !in e && MakeDirectorySync(e, destDir).Some?
    ensures var (ok, after) := CopyImageResult(e, src, destDir, now);
      && !ok && after == MakeDirectorySync(e, destDir).value
      && IsDirectory(after, destDir) && destDir !in e
  {
    MakeDirectoryEffect(e, destDir);
    var e1 := MakeDirectorySync(e, destDir).value;
    assert IsDirectory(e1, src);
  }
}
