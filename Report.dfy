/**
 * `findDuplicates` from the enumerated files on: the hashing loop, the unique images, the
 * results loop over the groups with its copies and `duplicateCount`, and the summary it
 * prints.
 */
module Report {
  import opened Common
  import opened Options
  import opened DuplicateIndex
  import opened IndexProperties
  import opened Selection
  import opened FileSystem
  import opened Copying

  /** The numbers of the printed summary. */
  datatype Summary = Summary(images: nat, duplicates: int, groups: nat, uniques: nat)

  /** The summary for the enumerated files `files`. */
  function SummaryOf(files: seq<Scanned>): Summary
  {
    var ix := Build(files);
    Summary(|files|, DuplicateCount(Groups(ix)), |ix.duplicates.keys|, |Uniques(ix)|)
  }

  /** Every group of the index has a first member. */
  lemma GroupsNonEmpty(files: seq<Scanned>)
    ensures NonEmptyGroups(Groups(Build(files)))
  {
    GroupsAreClasses(files);
  }

  /** The copies of `findDuplicates` for the enumerated files `files` under `config`. */
  function PlanOf(files: seq<Scanned>, config: Config): seq<Path>
  {
    GroupsNonEmpty(files);
    Plan(Groups(Build(files)), Uniques(Build(files)), config)
  }

  /**
   * The duplicates, the groups and the unique images add up to the files that were hashed
   * successfully, which are at most all of them; every group adds at least one duplicate.
   */
  lemma SummaryCounts(files: seq<Scanned>)
    ensures var s := SummaryOf(files);
      && s.duplicates + s.groups + s.uniques == CountHashed(files) <= s.images
      && s.groups <= s.duplicates
  {
    var ix := Build(files);
    CountsAddUp(files);
    DuplicatesAndGroups(Groups(ix));
    GroupsAreClasses(files);
    DuplicateCountBounds(Groups(ix));
    CountHashedBound(files);
  }

  lemma {:induction false} CountHashedBound(files: seq<Scanned>)
    ensures CountHashed(files) <= |files|
  {
    if files != [] {
      CountHashedBound(files[..|files| - 1]);
    }
  }

  /**
   * Under `selectAll` the copies are the first file of every group followed by every unique
   * image, and no path is copied twice.
   */
  lemma SelectAllCopiesEachOnce(files: seq<Scanned>, config: Config)
    requires DistinctPaths(files) && config.moveFiles && config.selectAll
    ensures NonEmptyGroups(Groups(Build(files)))
      && PlanOf(files, config) == Heads(Groups(Build(files))) + Uniques(Build(files))
    ensures Distinct(PlanOf(files, config))
  {
    GroupsNonEmpty(files);
    SelectAllCopiesHeadsAndUniques(Groups(Build(files)), Uniques(Build(files)), config);
    HeadsAndUniquesDistinct(files);
  }

  /** The first files of the groups and the unique images are all different files. */
  lemma HeadsAndUniquesDistinct(files: seq<Scanned>)
    requires DistinctPaths(files)
    ensures NonEmptyGroups(Groups(Build(files)))
      && Distinct(Heads(Groups(Build(files))) + Uniques(Build(files)))
  {
    var ix := Build(files);
    var gs, us := Groups(ix), Uniques(ix);
    HeadsDistinct(files);
    var hs := Heads(gs);
    UniquesInOrder(files);
    forall i, j | 0 <= i < |hs| && 0 <= j < |us| ensures hs[i] != us[j] {
      HeadIsNotUnique(files, i);
    }
    DistinctConcat(hs, us);
  }

  /** The first files of two groups are different files. */
  lemma HeadsDistinct(files: seq<Scanned>)
    requires DistinctPaths(files)
    ensures NonEmptyGroups(Groups(Build(files))) && Distinct(Heads(Groups(Build(files))))
  {
    GroupsNonEmpty(files);
    var gs := Groups(Build(files));
    var hs := Heads(gs);
    forall i, j | 0 <= i < j < |hs| ensures hs[i] != hs[j] {
      var a := HeadFile(files, i);
      var b := HeadFile(files, j);
      GroupsDiffer(files, i, j);
    }
  }

  /** The position in `files` of the first member of group `gi`, and its hash. */
  lemma HeadFile(files: seq<Scanned>, gi: nat) returns (a: nat)
    requires gi < |Groups(Build(files))|
    ensures a < |files| && Groups(Build(files))[gi] != []
    ensures files[a].path == Groups(Build(files))[gi][0]
    ensures files[a].hash == Some(Build(files).duplicates.keys[gi])
  {
    var ix := Build(files);
    var gs, du := Groups(ix), ix.duplicates;
    GroupsAreClasses(files);
    var h := du.keys[gi];
    a := PositionsOf(files, h)[0];
    assert files[a].path == gs[gi][0] && files[a].hash == Some(h);
  }

  /** Two groups have different keys. */
  lemma GroupsDiffer(files: seq<Scanned>, i: nat, j: nat)
    requires i < j < |Groups(Build(files))|
    ensures Build(files).duplicates.keys[i] != Build(files).duplicates.keys[j]
  {
    GroupsAreClasses(files);
  }

  /** The first file of a group is not a unique image. */
  lemma HeadIsNotUnique(files: seq<Scanned>, gi: nat)
    requires DistinctPaths(files) && gi < |Groups(Build(files))|
    ensures Groups(Build(files))[gi] != [] && Groups(Build(files))[gi][0] !in Uniques(Build(files))
  {
    var a := HeadFile(files, gi);
    GroupsAreClasses(files);
    Partition(files, a);
  }

  // ---------------------------------------------------------------------------------------
  // The loops

  /** One more `copyFileToOutput` call at the end of a run of them. */
  lemma CopiesSnoc(e: Entries, done: seq<Path>, file: Path, outputDir: Path, clock: nat -> nat)
    ensures CopiesResult(e, done + [file], outputDir, clock)
      == CopyToOutputResult(CopiesResult(e, done, outputDir, clock), file, outputDir,
                            clock(|done|))
  {
    assert (done + [file])[..|done|] == done;
  }

  lemma ExtendByOne(done: seq<Path>, files: seq<Path>, j: nat, made: seq<Path>)
    requires j < |files| && made == done + files[..j]
    ensures made + [files[j]] == done + files[..j + 1]
  {
    assert files[..j + 1] == files[..j] + [files[j]];
  }

  /** `copyFileToOutput(file)` as the next call of a run that has made the copies `done`. */
  method CopyNext(fs: Disk, file: Path, outputDir: Path, clock: nat -> nat,
                  ghost e0: Entries, ghost done: seq<Path>, copies: nat)
    requires copies == |done| && fs.entries == CopiesResult(e0, done, outputDir, clock)
    modifies fs
    ensures fs.entries == CopiesResult(e0, done + [file], outputDir, clock)
  {
    CopiesSnoc(e0, done, file, outputDir, clock);
    CopyFileToOutput(fs, file, outputDir, clock(copies));
  }

  /**
   * `copyFileToOutput` for each of `files` in turn, continuing a run that has made the copies
   * `done`; the clock is read with the number of copies made so far.
   */
  method CopyEach(fs: Disk, files: seq<Path>, outputDir: Path, clock: nat -> nat,
                  ghost e0: Entries, ghost done: seq<Path>, copies: nat)
    returns (copies': nat)
    requires copies == |done| && fs.entries == CopiesResult(e0, done, outputDir, clock)
    modifies fs
    ensures copies' == |done + files|
    ensures fs.entries == CopiesResult(e0, done + files, outputDir, clock)
  {
    copies' := copies;
    var j := 0;
    ghost var made := done;
    while j < |files|
      invariant 0 <= j <= |files|
      invariant made == done + files[..j]
      invariant copies' == |made|
      invariant fs.entries == CopiesResult(e0, made, outputDir, clock)
    {
      ExtendByOne(done, files, j, made);
      CopyNext(fs, files[j], outputDir, clock, e0, made, copies');
      made := made + [files[j]];
      copies' := copies' + 1;
      j := j + 1;
    }
    assert files[..j] == files;
  }

  /** The copy branches for one group of the results loop. */
  method CopyGroup(fs: Disk, files: seq<Path>, config: Config, clock: nat -> nat,
                   ghost e0: Entries, ghost done: seq<Path>, copies: nat)
    returns (copies': nat)
    requires files != []
    requires copies == |done| && fs.entries == CopiesResult(e0, done, config.outputDir, clock)
    modifies fs
    ensures copies' == |done + GroupCopies(files, config)|
    ensures fs.entries == CopiesResult(e0, done + GroupCopies(files, config), config.outputDir,
                                       clock)
  {
    var filesToCopy := FilesToCopy(files, config);
    if config.moveFiles && !config.copyUnique && !config.selectAll {
      assert GroupCopies(files, config) == filesToCopy;
      copies' := CopyEach(fs, filesToCopy, config.outputDir, clock, e0, done, copies);
    } else if config.moveFiles && (config.selectOne || config.selectAll) {
      assert GroupCopies(files, config) == [filesToCopy[0]];
      copies' := CopyEach(fs, [filesToCopy[0]], config.outputDir, clock, e0, done, copies);
    } else {
      assert done + GroupCopies(files, config) == done;
      copies' := copies;
    }
  }

  /**
   * One turn of the results loop: the group's duplicates are added to `duplicateCount` and
   * its selected files are copied.
   */
  method ReportGroup(fs: Disk, ghost groups: seq<seq<Path>>, gi: nat, files: seq<Path>,
                     config: Config, clock: nat -> nat, ghost e0: Entries, ghost done: seq<Path>,
                     duplicateCount: int, copies: nat)
    returns (duplicateCount': int, copies': nat, ghost done': seq<Path>)
    requires NonEmptyGroups(groups) && gi < |groups| && files == groups[gi]
    requires NonEmptyGroups(groups[..gi]) && done == GroupPlan(groups[..gi], config)
    requires duplicateCount == DuplicateCount(groups[..gi])
    requires copies == |done| && fs.entries == CopiesResult(e0, done, config.outputDir, clock)
    modifies fs
    ensures NonEmptyGroups(groups[..gi + 1]) && done' == GroupPlan(groups[..gi + 1], config)
    ensures duplicateCount' == DuplicateCount(groups[..gi + 1])
    ensures copies' == |done'| && fs.entries == CopiesResult(e0, done', config.outputDir, clock)
  {
    GroupsStep(groups, gi, config);
    duplicateCount' := duplicateCount + |files| - 1;
    copies' := CopyGroup(fs, files, config, clock, e0, done, copies);
    done' := done + GroupCopies(files, config);
  }

  /**
   * The results loop: for every group in key order it adds the group's duplicates to
   * `duplicateCount` and copies what the flags select; then it copies the unique images
   * when asked to.
   */
  method ReportResults(fs: Disk, duplicates: Dict, uniqueImages: seq<Path>, config: Config,
                       clock: nat -> nat)
    returns (duplicateCount: int)
    requires duplicates.Valid()
    requires NonEmptyGroups(ListsOf(duplicates.keys, duplicates.vals))
    modifies fs
    ensures duplicateCount == DuplicateCount(ListsOf(duplicates.keys, duplicates.vals))
    ensures fs.entries == CopiesResult(old(fs.entries),
      Plan(ListsOf(duplicates.keys, duplicates.vals), uniqueImages, config),
      config.outputDir, clock)
  {
    ghost var e0 := fs.entries;
    ghost var groups := ListsOf(duplicates.keys, duplicates.vals);
    ghost var done: seq<Path> := [];
    var copies := 0;
    duplicateCount := 0;
    var gi := 0;
    GroupsPrefix(groups, 0, config);
    while gi < |duplicates.keys|
      invariant 0 <= gi <= |duplicates.keys|
      invariant NonEmptyGroups(groups[..gi])
      invariant done == GroupPlan(groups[..gi], config)
      invariant duplicateCount == DuplicateCount(groups[..gi])
      invariant copies == |done|
      invariant fs.entries == CopiesResult(e0, done, config.outputDir, clock)
    {
      var files := duplicates.vals[duplicates.keys[gi]];
      assert files == groups[gi];
      duplicateCount, copies, done :=
        ReportGroup(fs, groups, gi, files, config, clock, e0, done, duplicateCount, copies);
      gi := gi + 1;
    }
    GroupsPrefix(groups, gi, config);
    assert Plan(groups, uniqueImages, config) == done + UniqueCopies(uniqueImages, config);
    copies := CopyUniques(fs, uniqueImages, config, clock, e0, done, copies);
  }

  /** The copy branch for the unique images after the results loop. */
  method CopyUniques(fs: Disk, uniqueImages: seq<Path>, config: Config, clock: nat -> nat,
                     ghost e0: Entries, ghost done: seq<Path>, copies: nat)
    returns (copies': nat)
    requires copies == |done| && fs.entries == CopiesResult(e0, done, config.outputDir, clock)
    modifies fs
    ensures copies' == |done + UniqueCopies(uniqueImages, config)|
    ensures fs.entries == CopiesResult(e0, done + UniqueCopies(uniqueImages, config),
                                       config.outputDir, clock)
  {
    if |uniqueImages| > 0 && (config.copyUnique || config.selectAll) && config.moveFiles {
      copies' := CopyEach(fs, uniqueImages, config.outputDir, clock, e0, done, copies);
    } else {
      assert done + UniqueCopies(uniqueImages, config) == done;
      copies' := copies;
    }
  }

  /**
   * `findDuplicates` from the enumerated files on: with no files it returns at once;
   * otherwise it builds the index, collects the unique images, runs the results loop and
   * ends with the summary.
   */
  method FindDuplicates(fs: Disk, config: Config, imageFiles: seq<Scanned>, clock: nat -> nat)
    returns (summary: Option<Summary>)
    modifies fs
    ensures imageFiles == [] ==> summary == None && fs.entries == old(fs.entries)
    ensures imageFiles != [] ==>
      && summary == Some(SummaryOf(imageFiles))
      && fs.entries == CopiesResult(old(fs.entries), PlanOf(imageFiles, config),
                                    config.outputDir, clock)
  {
    if |imageFiles| == 0 {
      return None;
    }
    var imageHashes, duplicates, processed := IndexFiles(imageFiles);
    var uniqueImages := CollectUniques(imageHashes, duplicates);
    GroupsNonEmpty(imageFiles);
    var duplicateCount := ReportResults(fs, duplicates, uniqueImages, config, clock);
    summary := Some(Summary(|imageFiles|, duplicateCount, |duplicates.keys|, |uniqueImages|));
  }
}
