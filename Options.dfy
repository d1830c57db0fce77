/**
 * The command line: the left-to-right loop over `process.argv.slice(2)` that fills in the
 * configuration record, and the ways it can end early (`showHelp`, the standalone `--copy`).
 */
module Options {
  import opened Common

  /** The program's `config` record. */
  datatype Config = Config(
    inputDir: string,
    outputDir: string,
    moveFiles: bool,
    recursive: bool,
    selectOne: bool,
    copyUnique: bool,
    selectAll: bool)

  /** The values `config` starts with. */
  const Defaults: Config := Config("./images", "./duplicates", false, true, false, false, false)

  /** Why `showHelp` was called; every one of them prints the help text and exits with 0. */
  datatype HelpReason = Requested | CopyFormatInvalid | CopyArgumentMissing

  /** How the argument loop ends. */
  datatype ArgsOutcome =
    | Proceed(config: Config, copyMode: bool)  // the loop ran over every argument
    | Help(reason: HelpReason)                 // `showHelp()`, then `process.exit(0)`
    | Copy(source: string, dest: string)       // `copyImage(source, dest)`, then exit 0 or 1

  /** The result of handling one argument. */
  datatype StepResult = Continue(config: Config) | Stop(outcome: ArgsOutcome)

  /** The flags whose effect is described by a normalisation rule. */
  predicate Normalised(c: Config)
  {
    && (c.selectOne ==> c.moveFiles)
    && (c.copyUnique ==> c.moveFiles)
    && (c.selectAll ==> c.moveFiles && c.selectOne && c.copyUnique)
  }

  predicate StartsWithDash(arg: string)
  {
    |arg| > 0 && arg[0] == '-'
  }

  /** `const [sourcePath, destDir] = copyArg.split(':')` for an argument that contains `:`. */
  function SplitCopyArg(copyArg: string): (string, string)
    requires ':' in copyArg
  {
    var source := Before(copyArg, ':');
    (source, Before(copyArg[|source| + 1..], ':'))
  }

  predicate IsStopFlag(arg: string)
  {
    arg == "--help" || arg == "-h" || arg == "--copy" || arg == "-c"
  }

  /** The outcome of reaching a `--help` or `--copy` at position `i`. */
  function StopAt(args: seq<string>, i: nat): ArgsOutcome
    requires i < |args|
  {
    if args[i] == "--help" || args[i] == "-h" then Help(Requested)
    else if i + 1 < |args| then
      if ':' in args[i + 1] then
        var (source, dest) := SplitCopyArg(args[i + 1]);
        Copy(source, dest)
      else Help(CopyFormatInvalid)
    else Help(CopyArgumentMissing)
  }

  /** One turn of the loop body, for the argument at position `i`. */
  function ApplyArg(c: Config, args: seq<string>, i: nat): StepResult
    requires i < |args|
  {
    if IsStopFlag(args[i]) then Stop(StopAt(args, i)) else Continue(Update(c, args[i], i))
  }

  /** The assignments one argument other than `--help` and `--copy` makes at position `i`. */
  function Update(c: Config, arg: string, i: nat): Config
  {
    if arg == "--move" || arg == "-m" then c.(moveFiles := true)
    else if arg == "--no-recursive" then c.(recursive := false)
    else if arg == "--select-one" || arg == "-s" then c.(selectOne := true, moveFiles := true)
    else if arg == "--copy-unique" || arg == "-u" then c.(copyUnique := true, moveFiles := true)
    else if arg == "--select-all" || arg == "-a" then
      c.(selectOne := true, copyUnique := true, selectAll := true, moveFiles := true)
    else if i == 0 && !StartsWithDash(arg) then c.(inputDir := arg)
    else if i == 1 && !StartsWithDash(arg) then c.(outputDir := arg)
    else c
  }

  /** The loop from position `i` on, with `c` the configuration built so far. */
  function ParseFrom(c: Config, args: seq<string>, i: nat): ArgsOutcome
    requires i <= |args|
    decreases |args| - i
  {
    if i == |args| then Proceed(c, false)
    else
      match ApplyArg(c, args, i)
      case Stop(outcome) => outcome
      case Continue(c') => ParseFrom(c', args, i + 1)
  }

  /** What the whole argument loop does with `args`. */
  function Parse(args: seq<string>): ArgsOutcome
  {
    ParseFrom(Defaults, args, 0)
  }

  /**
   * The argument loop as written: it assigns `config` fields one argument at a time, and
   * stops at the first `--help` or `--copy`.
   */
  method ParseArgs(args: seq<string>) returns (outcome: ArgsOutcome)
    ensures outcome == Parse(args)
    ensures outcome.Proceed? ==> Normalised(outcome.config) && !outcome.copyMode
  {
    var config := Defaults;
    var copyMode := false;
    var i := 0;
    while i < |args|
      invariant 0 <= i <= |args|
      invariant ParseFrom(config, args, i) == Parse(args)
      invariant Normalised(config)
      invariant !copyMode
    {
      var arg := args[i];
      if arg == "--help" || arg == "-h" {
        return Help(Requested);
      } else if arg == "--copy" || arg == "-c" {
        copyMode := true;
        if i + 1 < |args| {
          var copyArg := args[i + 1];
          if ':' in copyArg {
            var (sourcePath, destDir) := SplitCopyArg(copyArg);
            return Copy(sourcePath, destDir);
          } else {
            return Help(CopyFormatInvalid);
          }
        } else {
          return Help(CopyArgumentMissing);
        }
      }
      ParseFromStep(config, args, i);
      config := SetFlag(config, arg, i);
      i := i + 1;
    }
    return Proceed(config, copyMode);
  }

  /**
   * The branches of the loop body for the arguments that do not end the loop (the
   * conditions exclude each other, so `--copy` being tested among them changes nothing).
   * Every branch that turns a selection on turns copying on with it, so the normalisation
   * rules are kept.
   */
  method SetFlag(config: Config, arg: string, i: nat) returns (config': Config)
    requires Normalised(config)
    ensures config' == Update(config, arg, i)
    ensures Normalised(config')
  {
    config' := config;
    if arg == "--move" || arg == "-m" {
      config' := config'.(moveFiles := true);
    } else if arg == "--no-recursive" {
      config' := config'.(recursive := false);
    } else if arg == "--select-one" || arg == "-s" {
      config' := config'.(selectOne := true);
      config' := config'.(moveFiles := true);
    } else if arg == "--copy-unique" || arg == "-u" {
      config' := config'.(copyUnique := true);
      config' := config'.(moveFiles := true);
    } else if arg == "--select-all" || arg == "-a" {
      config' := config'.(selectOne := true);
      config' := config'.(copyUnique := true);
      config' := config'.(selectAll := true);
      config' := config'.(moveFiles := true);
    } else if i == 0 && !StartsWithDash(arg) {
      config' := config'.(inputDir := arg);
    } else if i == 1 && !StartsWithDash(arg) {
      config' := config'.(outputDir := arg);
    }
  }

  /** An argument that does not end the loop hands the updated configuration on. */
  lemma ParseFromStep(c: Config, args: seq<string>, i: nat)
    requires i < |args| && !IsStopFlag(args[i])
    ensures ParseFrom(c, args, i) == ParseFrom(Update(c, args[i], i), args, i + 1)
  {
  }

  // ---------------------------------------------------------------------------------------
  // What the loop computes

  const MoveSetters: set<string> :=
    {"--move", "-m", "--select-one", "-s", "--copy-unique", "-u", "--select-all", "-a"}
  const SelectOneSetters: set<string> := {"--select-one", "-s", "--select-all", "-a"}
  const CopyUniqueSetters: set<string> := {"--copy-unique", "-u", "--select-all", "-a"}
  const SelectAllSetters: set<string> := {"--select-all", "-a"}

  /** Some argument at position `i` or later is one of `flags`. */
  predicate AnyFrom(args: seq<string>, i: nat, flags: set<string>)
  {
    exists j :: i <= j < |args| && args[j] in flags
  }

  /** No argument at position `i` or later ends the loop. */
  predicate NoStopFrom(args: seq<string>, i: nat)
  {
    forall j :: i <= j < |args| ==> !IsStopFlag(args[j])
  }

  /** The loop runs to the end exactly when no `--help`, `-h`, `--copy` or `-c` occurs. */
  lemma {:induction false} ParseFromProceeds(c: Config, args: seq<string>, i: nat)
    requires i <= |args|
    ensures ParseFrom(c, args, i).Proceed? <==> NoStopFrom(args, i)
    decreases |args| - i
  {
    if i < |args| {
      if IsStopFlag(args[i]) {
        assert !StopAt(args, i).Proceed?;
      } else {
        var next := ApplyArg(c, args, i);
        ParseFromProceeds(next.config, args, i + 1);
      }
    }
  }

  /** Otherwise the first of them decides the outcome, and later arguments are never read. */
  lemma {:induction false} ParseFromStops(c: Config, args: seq<string>, i: nat, k: nat)
    requires i <= k < |args|
    requires IsStopFlag(args[k])
    requires forall j :: i <= j < k ==> !IsStopFlag(args[j])
    ensures ParseFrom(c, args, i) == StopAt(args, k)
    decreases k - i
  {
    if i < k {
      ParseFromStops(ApplyArg(c, args, i).config, args, i + 1, k);
    }
  }

  lemma AnyFromStep(args: seq<string>, i: nat, flags: set<string>)
    requires i < |args|
    ensures AnyFrom(args, i, flags) <==> args[i] in flags || AnyFrom(args, i + 1, flags)
  {
    if AnyFrom(args, i, flags) {
      var j :| i <= j < |args| && args[j] in flags;
      if j > i {
        assert AnyFrom(args, i + 1, flags);
      }
    }
  }

  /** The effect of one argument that does not end the loop. */
  lemma UpdateEffect(c: Config, arg: string, i: nat)
    ensures var r := Update(c, arg, i);
      && (r.moveFiles <==> c.moveFiles || arg in MoveSetters)
      && (r.selectOne <==> c.selectOne || arg in SelectOneSetters)
      && (r.copyUnique <==> c.copyUnique || arg in CopyUniqueSetters)
      && (r.selectAll <==> c.selectAll || arg in SelectAllSetters)
      && (r.recursive <==> c.recursive && arg != "--no-recursive")
      && r.inputDir == (if i == 0 && !StartsWithDash(arg) then arg else c.inputDir)
      && r.outputDir == (if i == 1 && !StartsWithDash(arg) then arg else c.outputDir)
  {
    if arg in MoveSetters {
      SetterEffect(c, arg, i);
    } else {
      OtherEffect(c, arg, i);
    }
  }

  /**
   * The other arguments leave the four copy flags alone; `--no-recursive` clears `recursive`,
   * and an argument without a dash at position 0 or 1 replaces the input or output directory.
   */
  lemma OtherEffect(c: Config, arg: string, i: nat)
    requires arg !in MoveSetters
    ensures arg !in SelectOneSetters && arg !in CopyUniqueSetters && arg !in SelectAllSetters
    ensures var r := Update(c, arg, i);
      && r.moveFiles == c.moveFiles && r.selectOne == c.selectOne
      && r.copyUnique == c.copyUnique && r.selectAll == c.selectAll
      && (r.recursive <==> c.recursive && arg != "--no-recursive")
      && r.inputDir == (if i == 0 && !StartsWithDash(arg) then arg else c.inputDir)
      && r.outputDir == (if i == 1 && !StartsWithDash(arg) then arg else c.outputDir)
  {
    assert arg !in SelectOneSetters + CopyUniqueSetters;
    assert StartsWithDash("--no-recursive");
  }

  /** The arguments that turn copying on change only the flags. */
  lemma SetterEffect(c: Config, arg: string, i: nat)
    requires arg in MoveSetters
    ensures var r := Update(c, arg, i);
      && r.moveFiles
      && (r.selectOne <==> c.selectOne || arg in SelectOneSetters)
      && (r.copyUnique <==> c.copyUnique || arg in CopyUniqueSetters)
      && (r.selectAll <==> c.selectAll || arg in SelectAllSetters)
      && r.recursive == c.recursive && r.inputDir == c.inputDir && r.outputDir == c.outputDir
  {
    if arg == "--move" || arg == "-m" {
      assert arg !in SelectOneSetters + CopyUniqueSetters;
    } else if arg == "--select-one" || arg == "-s" {
      assert arg in SelectOneSetters && arg !in CopyUniqueSetters;
    } else if arg == "--copy-unique" || arg == "-u" {
      assert arg in CopyUniqueSetters && arg !in SelectOneSetters;
    } else {
      assert arg == "--select-all" || arg == "-a";
    }
  }

  /**
   * When the loop runs to the end, each flag is set exactly when one of the arguments that
   * set it occurs (none is ever cleared), and `recursive` is cleared exactly when
   * `--no-recursive` occurs (it is never set).
   */
  lemma {:induction false} ParseFromFlags(c: Config, args: seq<string>, i: nat)
    requires i <= |args|
    requires NoStopFrom(args, i)
    ensures ParseFrom(c, args, i).Proceed? && !ParseFrom(c, args, i).copyMode
    ensures var r := ParseFrom(c, args, i).config;
      && (r.moveFiles <==> c.moveFiles || AnyFrom(args, i, MoveSetters))
      && (r.selectOne <==> c.selectOne || AnyFrom(args, i, SelectOneSetters))
      && (r.copyUnique <==> c.copyUnique || AnyFrom(args, i, CopyUniqueSetters))
      && (r.selectAll <==> c.selectAll || AnyFrom(args, i, SelectAllSetters))
      && (r.recursive <==> c.recursive && !AnyFrom(args, i, {"--no-recursive"}))
    decreases |args| - i
  {
    if i < |args| {
      UpdateEffect(c, args[i], i);
      ParseFromFlags(ApplyArg(c, args, i).config, args, i + 1);
      AnyFromStep(args, i, MoveSetters);
      AnyFromStep(args, i, SelectOneSetters);
      AnyFromStep(args, i, CopyUniqueSetters);
      AnyFromStep(args, i, SelectAllSetters);
      AnyFromStep(args, i, {"--no-recursive"});
    }
  }

  /** The input and output directories come from positions 0 and 1 only. */
  lemma {:induction false} ParseFromDirs(c: Config, args: seq<string>, i: nat)
    requires i <= |args|
    requires NoStopFrom(args, i)
    ensures ParseFrom(c, args, i).Proceed?
    ensures var r := ParseFrom(c, args, i).config;
      && r.inputDir == (if i == 0 && 0 < |args| && !StartsWithDash(args[0]) then args[0]
                        else c.inputDir)
      && r.outputDir == (if i <= 1 && 1 < |args| && !StartsWithDash(args[1]) then args[1]
                         else c.outputDir)
    decreases |args| - i
  {
    if i < |args| {
      UpdateEffect(c, args[i], i);
      ParseFromDirs(ApplyArg(c, args, i).config, args, i + 1);
    }
  }

  /** The configuration the program runs with, stated against the arguments. */
  lemma ParseConfig(args: seq<string>)
    requires NoStopFrom(args, 0)
    ensures Parse(args).Proceed? && !Parse(args).copyMode
    ensures var r := Parse(args).config;
      && (r.moveFiles <==> AnyFrom(args, 0, MoveSetters))
      && (r.selectOne <==> AnyFrom(args, 0, SelectOneSetters))
      && (r.copyUnique <==> AnyFrom(args, 0, CopyUniqueSetters))
      && (r.selectAll <==> AnyFrom(args, 0, SelectAllSetters))
      && (r.recursive <==> !AnyFrom(args, 0, {"--no-recursive"}))
      && r.inputDir == (if 0 < |args| && !StartsWithDash(args[0]) then args[0] else "./images")
      && r.outputDir == (if 1 < |args| && !StartsWithDash(args[1]) then args[1] else "./duplicates")
  {
    ParseFromFlags(Defaults, args, 0);
    ParseFromDirs(Defaults, args, 0);
  }

  /**
   * After the loop, selecting one, copying uniques or selecting all implies copying is on,
   * and selecting all implies both of the other two.
   */
  lemma ParseNormalises(args: seq<string>)
    ensures Parse(args).Proceed? ==> Normalised(Parse(args).config)
  {
    ParseFromProceeds(Defaults, args, 0);
    if Parse(args).Proceed? {
      ParseConfig(args);
      var r := Parse(args).config;
      if r.selectOne || r.copyUnique || r.selectAll {
        var j :| 0 <= j < |args| && args[j] in SelectOneSetters + CopyUniqueSetters;
        assert args[j] in MoveSetters;
      }
      if r.selectAll {
        var j :| 0 <= j < |args| && args[j] in SelectAllSetters;
        assert args[j] in SelectOneSetters && args[j] in CopyUniqueSetters;
      }
    }
  }

  /**
   * `--copy source:dest` splits at the first two colons: `source` holds no colon and is what
   * stands before the first one, `dest` holds no colon and ends at the second one or at the
   * end of the argument.
   */
  lemma SplitCopyArgPieces(copyArg: string)
    requires ':' in copyArg
    ensures var (source, dest) := SplitCopyArg(copyArg);
      && ':' !in source && ':' !in dest
      && source + ":" + dest <= copyArg
      && (|source| + 1 + |dest| < |copyArg| ==> copyArg[|source| + 1 + |dest|] == ':')
  {
    var (source, dest) := SplitCopyArg(copyArg);
    assert |source| < |copyArg|;
    var rest := copyArg[|source| + 1..];
    assert copyArg == source + ":" + rest;
  }
}
