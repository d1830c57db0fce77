/**
 * What the results section of `findDuplicates` decides to copy: for every duplicate group in
 * the order `for (const hash in duplicates)` visits them, the files picked by the
 * `filesToCopy` case split and the copy branches after it; then, when asked for, every
 * unique image. The summary counts the duplicates of every group.
 */
module Selection {
  import opened Common
  import opened Options

  /** `filesToCopy` for one group: the case split on the flags. */
  function FilesToCopy(files: seq<Path>, c: Config): (r: seq<Path>)
    requires files != []
    ensures r == [] || r == [files[0]] || r == files[1..]
  {
    if c.moveFiles then
      if c.selectOne || c.selectAll then [files[0]]
      else if !c.copyUnique then files[1..]
      else []
    else []
  }

  /**
   * The files `copyFileToOutput` is called on for one group, in order. The first branch
   * copies every file of `filesToCopy`, the second only its first one.
   */
  function GroupCopies(files: seq<Path>, c: Config): (r: seq<Path>)
    requires files != []
    ensures !c.moveFiles ==> r == []
    ensures c.moveFiles && (c.selectOne || c.selectAll) ==> r == [files[0]]
    ensures c.moveFiles && c.copyUnique && !c.selectOne && !c.selectAll ==> r == []
    ensures c.moveFiles && !c.copyUnique && !c.selectOne && !c.selectAll ==> r == files[1..]
  {
    var filesToCopy := FilesToCopy(files, c);
    if c.moveFiles && !c.copyUnique && !c.selectAll then filesToCopy
    else if c.moveFiles && (c.selectOne || c.selectAll) then [filesToCopy[0]]
    else []
  }

  /** The unique images copied after the groups. */
  function UniqueCopies(uniques: seq<Path>, c: Config): (r: seq<Path>)
    ensures r == uniques || r == []
    ensures r == uniques <==> uniques == [] || (c.moveFiles && (c.copyUnique || c.selectAll))
  {
    if |uniques| > 0 then
      if (c.copyUnique || c.selectAll) && c.moveFiles then uniques else []
    else []
  }

  /** Every group has a first member. */
  predicate NonEmptyGroups(groups: seq<seq<Path>>)
  {
    forall gi :: 0 <= gi < |groups| ==> groups[gi] != []
  }

  /** The copies made for the groups, group after group. */
  function GroupPlan(groups: seq<seq<Path>>, c: Config): seq<Path>
    requires NonEmptyGroups(groups)
  {
    if groups == [] then []
    else
      var n := |groups| - 1;
      GroupPlan(groups[..n], c) + GroupCopies(groups[n], c)
  }

  /** Every call of `copyFileToOutput` in the results section, in order. */
  function Plan(groups: seq<seq<Path>>, uniques: seq<Path>, c: Config): seq<Path>
    requires NonEmptyGroups(groups)
  {
    GroupPlan(groups, c) + UniqueCopies(uniques, c)
  }

  /** `duplicateCount`: every file of a group except one. */
  function DuplicateCount(groups: seq<seq<Path>>): int
  {
    if groups == [] then 0
    else DuplicateCount(groups[..|groups| - 1]) + |groups[|groups| - 1]| - 1
  }

  /** The first member of every group. */
  function Heads(groups: seq<seq<Path>>): (r: seq<Path>)
    requires NonEmptyGroups(groups)
    ensures |r| == |groups| && forall gi :: 0 <= gi < |groups| ==> r[gi] == groups[gi][0]
  {
    seq(|groups|, gi requires 0 <= gi < |groups| => groups[gi][0])
  }

  /** Every group without its first member, concatenated. */
  function Tails(groups: seq<seq<Path>>): seq<Path>
    requires NonEmptyGroups(groups)
  {
    if groups == [] then []
    else
      var n := |groups| - 1;
      Tails(groups[..n]) + groups[n][1..]
  }

  /** The groups before position `gi`, and the whole of them once `gi` reaches the end. */
  lemma GroupsPrefix(groups: seq<seq<Path>>, gi: nat, c: Config)
    requires NonEmptyGroups(groups) && gi <= |groups|
    ensures NonEmptyGroups(groups[..gi])
    ensures gi == 0 ==> GroupPlan(groups[..gi], c) == [] && DuplicateCount(groups[..gi]) == 0
    ensures gi == |groups| ==> groups[..gi] == groups
  {
  }

  /** One more group adds its copies to the plan and its duplicates to the count. */
  lemma GroupsStep(groups: seq<seq<Path>>, gi: nat, c: Config)
    requires NonEmptyGroups(groups) && gi < |groups|
    ensures NonEmptyGroups(groups[..gi + 1])
    ensures GroupPlan(groups[..gi + 1], c) == GroupPlan(groups[..gi], c) + GroupCopies(groups[gi], c)
    ensures DuplicateCount(groups[..gi + 1]) == DuplicateCount(groups[..gi]) + |groups[gi]| - 1
  {
    assert groups[..gi + 1][..gi] == groups[..gi];
  }

  // ---------------------------------------------------------------------------------------
  // The plan under each combination of flags

  /** Without copying turned on, nothing is copied. */
  lemma {:induction false} NoMoveCopiesNothing(groups: seq<seq<Path>>, uniques: seq<Path>,
                                               c: Config)
    requires NonEmptyGroups(groups) && !c.moveFiles
    ensures Plan(groups, uniques, c) == []
  {
    if groups != [] {
      NoMoveCopiesNothing(groups[..|groups| - 1], uniques, c);
    }
  }

  /** Copying alone copies every group except its first member, and no unique image. */
  lemma {:induction false} MoveCopiesTails(groups: seq<seq<Path>>, uniques: seq<Path>, c: Config)
    requires NonEmptyGroups(groups)
    requires c.moveFiles && !c.selectOne && !c.copyUnique && !c.selectAll
    ensures Plan(groups, uniques, c) == Tails(groups)
  {
    if groups != [] {
      MoveCopiesTails(groups[..|groups| - 1], uniques, c);
    }
  }

  /** Copying uniques alone copies every unique image and no member of a group. */
  lemma {:induction false} CopyUniqueCopiesUniques(groups: seq<seq<Path>>, uniques: seq<Path>,
                                                   c: Config)
    requires NonEmptyGroups(groups)
    requires c.moveFiles && c.copyUnique && !c.selectOne && !c.selectAll
    ensures Plan(groups, uniques, c) == uniques
  {
    if groups != [] {
      CopyUniqueCopiesUniques(groups[..|groups| - 1], uniques, c);
    }
  }

  /** With `selectOne` or `selectAll` the groups contribute their first members, in order. */
  lemma {:induction false} SelectOneCopiesHeads(groups: seq<seq<Path>>, c: Config)
    requires NonEmptyGroups(groups)
    requires c.moveFiles && (c.selectOne || c.selectAll)
    ensures GroupPlan(groups, c) == Heads(groups)
  {
    if groups != [] {
      var n := |groups| - 1;
      SelectOneCopiesHeads(groups[..n], c);
      assert Heads(groups) == Heads(groups[..n]) + [groups[n][0]];
    }
  }

  /** `selectAll` copies the first member of every group, then every unique image. */
  lemma SelectAllCopiesHeadsAndUniques(groups: seq<seq<Path>>, uniques: seq<Path>, c: Config)
    requires NonEmptyGroups(groups) && c.moveFiles && c.selectAll
    ensures Plan(groups, uniques, c) == Heads(groups) + uniques
  {
    SelectOneCopiesHeads(groups, c);
  }

  /**
   * `-s -u` without `-a` copies what `-a` copies: the second copy branch takes the first file
   * of every group, and the uniques are copied because `copyUnique` is set.
   */
  lemma SelectOneAndCopyUniqueIsSelectAll(groups: seq<seq<Path>>, uniques: seq<Path>, c: Config)
    requires NonEmptyGroups(groups) && c.moveFiles && c.selectOne && c.copyUnique
    ensures Plan(groups, uniques, c) == Plan(groups, uniques, c.(selectAll := true))
  {
    SelectOneCopiesHeads(groups, c);
    SelectOneCopiesHeads(groups, c.(selectAll := true));
  }

  // ---------------------------------------------------------------------------------------
  // Counting

  /** The duplicates and the groups together are every member of a group. */
  lemma {:induction false} DuplicatesAndGroups(groups: seq<seq<Path>>)
    ensures DuplicateCount(groups) + |groups| == SumLens(groups)
  {
    if groups != [] {
      DuplicatesAndGroups(groups[..|groups| - 1]);
    }
  }

  /** A group of at least two files adds at least one duplicate. */
  lemma {:induction false} DuplicateCountBounds(groups: seq<seq<Path>>)
    requires forall gi :: 0 <= gi < |groups| ==> |groups[gi]| >= 2
    ensures |groups| <= DuplicateCount(groups)
  {
    if groups != [] {
      DuplicateCountBounds(groups[..|groups| - 1]);
    }
  }
}
