/**
 * The program from the argument loop to the end of `findDuplicates`: the loop's early exits,
 * the check that the input directory exists, the creation of the output directory when
 * copying is on, the walk of the input directory and the duplicate search.
 *
 * The listing of the input directory, the hash `calculateImageHash` computes for a path and
 * the times `Date.now()` returns are parameters.
 */
module Program {
  import opened Common
  import opened PathNames
  import opened Options
  import opened DuplicateIndex
  import opened Selection
  import opened FileSystem
  import opened Copying
  import opened Scan
  import opened Report

  /** How a run ends. */
  datatype RunResult =
    | Exited(code: int)                   // `process.exit(code)`
    | Crashed                             // an exception escapes the top level
    | Finished(summary: Option<Summary>)  // `findDuplicates()` returned

  /** The enumerated paths paired with their hashes. */
  function Hashed(paths: seq<Path>, hashOf: Path -> Option<Hash>): (r: seq<Scanned>)
    ensures |r| == |paths|
    ensures forall k :: 0 <= k < |paths| ==> r[k].path == paths[k] && r[k].hash == hashOf(paths[k])
  {
    seq(|paths|, k requires 0 <= k < |paths| => Scanned(paths[k], hashOf(paths[k])))
  }

  /** The files `findDuplicates` works on. */
  function ImageFiles(config: Config, listing: seq<Entry>, hashOf: Path -> Option<Hash>)
    : seq<Scanned>
  {
    Hashed(ScanEntries(config.inputDir, listing, config.recursive), hashOf)
  }

  /** What `findDuplicates()` returns and leaves on disk. */
  function FindDuplicatesResult(e: Entries, config: Config, listing: seq<Entry>,
                                hashOf: Path -> Option<Hash>, clock: nat -> nat)
    : (RunResult, Entries)
  {
    var files := ImageFiles(config, listing, hashOf);
    if files == [] then (Finished(None), e)
    else (Finished(Some(SummaryOf(files))),
          CopiesResult(e, PlanOf(files, config), config.outputDir, clock))
  }

  /** How a run with the arguments `args` ends and what it leaves on disk. */
  function RunResultOf(e: Entries, args: seq<string>, listing: seq<Entry>,
                       hashOf: Path -> Option<Hash>, clock: nat -> nat)
    : (RunResult, Entries)
  {
    match Parse(args)
    case Help(_) => (Exited(0), e)
    case Copy(source, dest) =>
      var (ok, e') := CopyImageResult(e, source, dest, clock(0));
      (Exited(if ok then 0 else 1), e')
    case Proceed(config, copyMode) =>
      if config.inputDir !in e && !copyMode then (Exited(1), e)
      else if config.moveFiles && config.outputDir !in e then
        match MakeDirectorySync(e, config.outputDir)
        case None => (Crashed, e)
        case Some(e1) => FindDuplicatesResult(e1, config, listing, hashOf, clock)
      else FindDuplicatesResult(e, config, listing, hashOf, clock)
  }

  /** The program's top level, run against the disk `fs`. */
  method Run(fs: Disk, args: seq<string>, listing: seq<Entry>, hashOf: Path -> Option<Hash>,
             clock: nat -> nat)
    returns (result: RunResult)
    modifies fs
    ensures (result, fs.entries) == RunResultOf(old(fs.entries), args, listing, hashOf, clock)
  {
    var outcome := ParseArgs(args);
    match outcome
    case Help(_) =>
      return Exited(0);
    case Copy(sourcePath, destDir) =>
      var ok := CopyImage(fs, sourcePath, destDir, clock(0));
      return Exited(if ok then 0 else 1);
    case Proceed(config, copyMode) =>
      if !fs.Exists(config.inputDir) && !copyMode {
        return Exited(1);
      }
      if config.moveFiles && !fs.Exists(config.outputDir) {
        var made := fs.MakeDirectory(config.outputDir);
        if !made {
          return Crashed;
        }
      }
      var imageFiles := ScanEntries(config.inputDir, listing, config.recursive);
      var summary := FindDuplicates(fs, config, Hashed(imageFiles, hashOf), clock);
      return Finished(summary);
  }

  // ---------------------------------------------------------------------------------------
  // Properties of a run

  /**
   * When the first of `--help`, `-h`, `--copy` and `-c` is a help flag, the run exits with 0
   * and the disk is left alone, whatever follows.
   */
  lemma RunHelp(e: Entries, args: seq<string>, listing: seq<Entry>,
                hashOf: Path -> Option<Hash>, clock: nat -> nat, k: nat)
    requires k < |args| && (args[k] == "--help" || args[k] == "-h")
    requires forall j :: 0 <= j < k ==> !IsStopFlag(args[j])
    ensures RunResultOf(e, args, listing, hashOf, clock) == (Exited(0), e)
  {
    ParseFromStops(Defaults, args, 0, k);
  }

  /**
   * When the first of them is a copy flag followed by an argument with a `:`, the run is
   * `copyImage` on the two pieces before and after the first `:`, with exit code 0 exactly
   * when it succeeds; without a `:` or without a following argument the help is shown and
   * the run exits with 0, leaving the disk alone.
   */
  lemma RunCopy(e: Entries, args: seq<string>, listing: seq<Entry>,
                hashOf: Path -> Option<Hash>, clock: nat -> nat, k: nat)
    requires k < |args| && (args[k] == "--copy" || args[k] == "-c")
    requires forall j :: 0 <= j < k ==> !IsStopFlag(args[j])
    ensures var r := RunResultOf(e, args, listing, hashOf, clock);
      if k + 1 < |args| && ':' in args[k + 1] then
        var (source, dest) := SplitCopyArg(args[k + 1]);
        var (ok, e') := CopyImageResult(e, source, dest, clock(0));
        r == (Exited(if ok then 0 else 1), e')
      else
        r == (Exited(0), e)
  {
    ParseFromStops(Defaults, args, 0, k);
  }

  /** Without a help or copy flag, a missing input directory ends the run with 1. */
  lemma RunMissingInput(e: Entries, args: seq<string>, listing: seq<Entry>,
                        hashOf: Path -> Option<Hash>, clock: nat -> nat)
    requires NoStopFrom(args, 0)
    requires (if 0 < |args| && !StartsWithDash(args[0]) then args[0] else "./images") !in e
    ensures RunResultOf(e, args, listing, hashOf, clock) == (Exited(1), e)
  {
    ParseConfig(args);
    ParseFromProceeds(Defaults, args, 0);
  }

  /**
   * With no `--help`/`-h`, no `--copy`/`-c` and none of the flags that turn copying on, a
   * run leaves the disk unchanged.
   */
  lemma RunWithoutCopying(e: Entries, args: seq<string>, listing: seq<Entry>,
                          hashOf: Path -> Option<Hash>, clock: nat -> nat)
    requires NoStopFrom(args, 0) && !AnyFrom(args, 0, MoveSetters)
    ensures RunResultOf(e, args, listing, hashOf, clock).1 == e
  {
    ParseConfig(args);
    ParseFromProceeds(Defaults, args, 0);
    var config := Parse(args).config;
    var files := ImageFiles(config, listing, hashOf);
    if files != [] {
      GroupsNonEmpty(files);
      NoMoveCopiesNothing(Groups(Build(files)), Uniques(Build(files)), config);
    }
  }

  /**
   * A run that reaches the duplicate search changes nothing outside the output directory,
   * except for creating that directory and its missing ancestors.
   */
  lemma RunWritesOnlyOutput(e: Entries, args: seq<string>, listing: seq<Entry>,
                            hashOf: Path -> Option<Hash>, clock: nat -> nat)
    requires RunResultOf(e, args, listing, hashOf, clock).0.Finished?
    ensures Parse(args).Proceed?
    ensures var dir, e' := Parse(args).config.outputDir, RunResultOf(e, args, listing, hashOf, clock).1;
      forall q :: Parent(q) != dir && q !in Ancestry(dir) ==>
        (q in e' <==> q in e) && (q in e ==> e'[q] == e[q])
  {
    var config := Parse(args).config;
    var dir := config.outputDir;
    var e1 := if config.moveFiles && dir !in e then MakeDirectorySync(e, dir).value else e;
    MakeDirectoryEffect(e, dir);
    assert forall q :: q !in Ancestry(dir) ==> (q in e1 <==> q in e) && (q in e ==> e1[q] == e[q]);
    var files := ImageFiles(config, listing, hashOf);
    if files != [] {
      CopiesStayInOutput(e1, PlanOf(files, config), dir, clock);
    }
  }

  /** For a listing as `readdirSync` gives it, the enumerated files have distinct paths. */
  lemma ImageFilesDistinct(config: Config, listing: seq<Entry>, hashOf: Path -> Option<Hash>)
    requires WellFormedListing(listing)
    ensures DistinctPaths(ImageFiles(config, listing, hashOf))
  {
    ScanEntriesDistinct(config.inputDir, listing, config.recursive);
  }

  /**
   * For such a listing, a run with `--select-all` copies the first file of every group and
   * then every unique image, none of them twice.
   */
  lemma SelectAllRunCopiesEachOnce(config: Config, listing: seq<Entry>,
                                   hashOf: Path -> Option<Hash>)
    requires WellFormedListing(listing) && config.moveFiles && config.selectAll
    ensures var files := ImageFiles(config, listing, hashOf);
      && NonEmptyGroups(Groups(Build(files)))
      && PlanOf(files, config) == Heads(Groups(Build(files))) + Uniques(Build(files))
      && Distinct(PlanOf(files, config))
  {
    var files := ImageFiles(config, listing, hashOf);
    ImageFilesDistinct(config, listing, hashOf);
    SelectAllCopiesEachOnce(files, config);
  }
}
