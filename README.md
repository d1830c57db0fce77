# PicDuplicateSorter, modelled in Dafny

PicDuplicateSorter (`index.js`) is a command-line tool that finds duplicate images. It walks an
input directory and hashes each image file. The hash is a digest of the image scaled down and
turned to grey. Files with the same digest form a duplicate group. Depending on the flags, the
tool copies some of the group members into an output directory, and can also copy the
"unique" images, the ones with no duplicate. A standalone `--copy source:dest` mode copies a
single image.

The model covers:

- **Argument loop** (`Options`). A left-to-right pass over the arguments that sets fields of
  the `config` record. It stops at the first `--help`/`-h` or `--copy`/`-c`. `ParseArgs` is
  the loop written as it is in the code. `Parse` is the function that specifies it.
- **Directory walk** (`Scan`). `scanDirectory` runs over a listing tree, because the walk
  depends on `readdirSync`/`statSync`, which the model does not see.
- **Hashing loop** (`DuplicateIndex`). It builds the two JavaScript objects `imageHashes` and
  `duplicates`. Each is a key sequence in insertion order plus a map. Afterwards a loop
  collects `uniqueImages`.
- **Results section** (`Selection`, `Report`). One turn per group, in `for … in` key order.
  Each turn computes `filesToCopy`, picks one of the two copy branches and adds to
  `duplicateCount`. Then the unique images are copied, and the summary counters are reported.
- **The two copy helpers** (`Copying`): `copyImage` and `copyFileToOutput`. Both run against
  a disk, modelled as a map from paths to directories and files (`FileSystem`). When the plain
  name is taken, both use the timestamped collision name `<stem>_<Date.now()><ext>`.
- **Top level** (`Program`). The early exits, the check that the input directory exists, the
  creation of the output directory, and the call to `findDuplicates`.

Things the code does, which the model follows:

- `showHelp()` always ends in `process.exit(0)`. So an invalid or missing `--copy` argument
  prints the help and exits with 0 (`Options.StopAt`, `Program.RunCopy`).
- With `--no-recursive`, the walk applies the extension test to directories as well. A
  sub-directory named like an image is enumerated as one (`Scan.DirectoryNamedLikeImage`).
- The timestamped name is never checked for being free. A file already carrying it is
  overwritten (`Copying.StampedTargetMayBeTaken`).
- `copyImage` can create the destination directory and still return `false` when the copy
  afterwards fails. It happens, for example, when the source is a directory whose name carries
  an image extension (`Copying.CopyImageFailsAfterMakingDirectory`).
- `-s -u` without `-a` copies exactly what `-a` copies
  (`Selection.SelectOneAndCopyUniqueIsSelectAll`).
- `copyMode` is always `false` once the loop runs to the end, because `--copy` always ends
  the run. So the `&& !copyMode` in the input-directory check has no effect
  (`Options.ParseArgs`).

Files: `Common.dfy`, `PathNames.dfy`, `Options.dfy`, `Scan.dfy`, `DuplicateIndex.dfy`,
`IndexProperties.dfy`, `Selection.dfy`, `FileSystem.dfy`, `Copying.dfy`, `Report.dfy` and
`Program.dfy`. Each declares one module of the same name.

## Model

| member | source | states |
|---|---|---|
| PathNames.BaseName | index.js:77-77 | defines `path.basename(p)` on a POSIX path: the part after the last `/`, trailing `/` ignored; it never contains `/` |
| PathNames.ExtName | index.js:64-64 | defines `path.extname(p)`: from the last `.` of the base name on, or empty when it has no `.`, starts with its only `.` or is `..` |
| PathNames.StampedName | index.js:82-85 | defines `${basename}_${timestamp}${extname}`: the stem, `_`, the decimal timestamp, the extension (also lines 334-337) |
| PathNames.IsImagePath | index.js:63-65 | defines the image test: the lower-cased extension is one of the eight listed (also line 198) |
| PathNames.StampedNameIsNew | index.js:82-85 | the collision name is one character plus the timestamp's digits longer than the name, so it always differs from it |
| PathNames.StampedNameHasNoSlash | index.js:82-86 | the collision name of a name without `/` has no `/`, so it stays in the target directory |
| PathNames.StampedNameKeepsExtension | index.js:82-85 | the collision name has the same `path.extname` as the original, has no `/`, is strictly longer and is different |
| PathNames.StemAndExtension | index.js:82-83 | `path.basename(name, ext)` followed by `path.extname(name)` gives back the name |
| PathNames.IsImagePathIgnoresCase | index.js:63-65 | two paths equal up to ASCII case are both images or both not |
| Options.Update | index.js:111-149 | defines the assignments of one argument other than `--help`/`-h`/`--copy`/`-c` at position `i` |
| Options.StopAt | index.js:109-144 | defines the outcome at a `--help` or `--copy`: help, help after a bad or missing copy argument, or a copy of the split pieces |
| Options.SplitCopyArg | index.js:130-131 | defines the first two pieces of `copyArg.split(':')` for an argument that contains `:` |
| Options.ParseFrom | index.js:106-150 | defines the loop from position `i` on, stopping at the first stop flag |
| Options.Parse | index.js:103-150 | defines the whole argument loop, started from the defaults with `copyMode` false |
| Options.ParseArgs | index.js:103-150 | the loop as written computes `Parse(args)`; when it runs to the end, the configuration is normalised and `copyMode` is false |
| Options.SetFlag | index.js:111-125 | the assignment chain of one flag computes `Update` and keeps the configuration normalised |
| Options.ParseFromStep | index.js:106-150 | a non-stop argument applies `Update` and the loop continues at the next position |
| Options.ParseFromProceeds | index.js:106-150 | the loop runs to the end iff no `--help`, `-h`, `--copy` or `-c` occurs |
| Options.ParseFromStops | index.js:109-144 | otherwise its outcome is decided by the first such flag alone; later arguments are never read |
| Options.UpdateEffect | index.js:111-149 | per argument: each flag becomes set iff it was set or the argument is one of its setters, `recursive` is cleared iff the argument is `--no-recursive`, and the directories change at positions 0/1 for arguments without a dash |
| Options.SetterEffect | index.js:111-125 | the copy-enabling flags set `moveFiles`, set exactly their own flags, and leave the directories and `recursive` alone |
| Options.OtherEffect | index.js:113-149 | the other arguments leave the four copy flags alone, clear `recursive` iff the argument is `--no-recursive`, and replace the input or output directory only at position 0 or 1, without a dash |
| Options.ParseFromFlags | index.js:106-150 | over a loop that runs to the end, each flag is set iff one of its setters occurs after the start (flags are never cleared); `recursive` is cleared iff `--no-recursive` occurs |
| Options.ParseFromDirs | index.js:145-149 | the input directory comes from position 0 only and the output directory from position 1 only, each only without a leading dash |
| Options.ParseConfig | index.js:17-150 | the final configuration, field by field, in terms of which arguments occur, starting from the defaults `./images`, `./duplicates`, recursive |
| Options.ParseNormalises | index.js:115-125 | after the loop, selectOne, copyUnique or selectAll implies moveFiles, and selectAll implies selectOne and copyUnique |
| Options.SplitCopyArgPieces | index.js:130-131 | `split(':')` yields a colon-free source before the first colon and a colon-free destination ending at the second colon or at the end |
| Scan.EntryAction | index.js:196-199 | defines the choice for one entry: descend into a directory when recursive, otherwise push it when its path passes the image test, otherwise skip it |
| Scan.ScanEntry | index.js:191-200 | defines one turn of the loop of `scanDirectory` for one entry |
| Scan.ScanEntries | index.js:186-211 | defines `scanDirectory` over a listing, in listing order |
| Scan.Filter | index.js:198-199 | every path kept passes the test |
| Scan.TopPaths | index.js:190-191 | the paths of the listing's own entries, each `path.join(dir, name)` |
| Scan.FilterConcat | index.js:190-199 | filtering distributes over concatenation |
| Scan.RecursiveScan | index.js:186-211 | the recursive walk yields exactly the image paths among all the files of the tree, in listing order |
| Scan.RecursiveScanEntry | index.js:190-200 | the same for one entry |
| Scan.FlatScan | index.js:196-199 | without recursion, the walk yields the image paths among the listing's own entries, directories included |
| Scan.ScanYieldsImages | index.js:196-199 | every path the walk yields has an image extension |
| Scan.DirectoryNamedLikeImage | index.js:196-199 | for every directory and name whose joined path passes the image test, a walk without recursion yields that sub-directory as an image whatever it holds, and a recursive walk descends into it |
| Scan.ComponentOfJoin | index.js:191-191 | a path at or below `dir/name` has `name` as its component right below `dir` |
| Scan.ScanEntryDistinct | index.js:190-200 | one entry of a well-formed listing yields paths without repeats, all in the component named after the entry |
| Scan.ScanEntriesDistinct | index.js:186-211 | a well-formed listing yields paths without repeats, each in the component of one of the listing's names |
| Scan.RestWellFormed | index.js:188-190 | the rest of a well-formed listing is well-formed and does not repeat the first name |
| DuplicateIndex.AddFile | index.js:241-249 | defines one turn of the hashing loop: skip a `null` hash, start a list, or extend it and alias it into `duplicates` |
| DuplicateIndex.UniquesOf | index.js:252-257 | defines `uniqueImages`: the only member of each one-element list whose key is not in `duplicates`, in key order |
| DuplicateIndex.Put | index.js:243-247 | assigning to an object keeps it valid; a new key goes to the end of the key order, an existing key keeps its place |
| DuplicateIndex.Build | index.js:232-250 | the objects after the hashing loop are valid |
| DuplicateIndex.PositionsFacts | index.js:232-250 | the positions with a digest come in increasing order and include every file with that digest |
| DuplicateIndex.BuildEstablishes | index.js:232-250 | `imageHashes` holds, for each digest that occurs, exactly the paths with that digest in enumeration order; `duplicates` holds exactly the digests with two or more files, and the same lists; keys are ordered by first and by second occurrence; every hashed file is counted once |
| DuplicateIndex.AddFileFacts | index.js:241-249 | one turn of the hashing loop keeps everything `BuildEstablishes` states |
| DuplicateIndex.IndexFiles | index.js:226-250 | the hashing loop computes `Build(files)`, and `processed` counts every file, including those whose hash failed |
| DuplicateIndex.ListsOf | index.js:263-264 | the lists of the keys, in key order |
| DuplicateIndex.CollectUniques | index.js:252-257 | the loop pushes the single member of every one-element, non-duplicated list, in key order |
| IndexProperties.GroupsHaveTwo | index.js:244-247 | every duplicate group has at least two files |
| IndexProperties.CountsAddUp | index.js:241-257 | the group sizes plus the number of unique images equal the number of files hashed successfully |
| IndexProperties.PathsWithMember | index.js:241-247 | with distinct paths, a file is in the list for a digest iff that is its digest |
| IndexProperties.GroupMember | index.js:241-248 | a file is in group `gi` iff its digest is the `gi`-th key of `duplicates` |
| IndexProperties.UniqueMember | index.js:253-256 | a file is unique iff it has a digest and no other file shares it |
| IndexProperties.GroupMembership | index.js:241-257 | in the built index, a file is unique iff it is alone with its digest, and in group `gi` iff its digest is that group's key |
| IndexProperties.UnhashedIsNowhere | index.js:241-241 | a file whose hash failed is in no group and is not unique |
| IndexProperties.HashedIsInOnePlace | index.js:241-257 | a hashed file is unique iff alone with its digest, in some group iff not, never in two groups |
| IndexProperties.Partition | index.js:241-257 | a file whose hash failed is in no group and is not unique; a hashed file is unique iff it is alone with its digest, is in a group iff it is not alone, is never in two groups, and is exactly one of group member and unique image |
| IndexProperties.UniquesInOrder | index.js:252-257 | `uniqueImages` holds enumerated paths in enumeration order, without repeats |
| IndexProperties.GroupsAreClasses | index.js:241-248 | the groups are the digest classes of size at least two, one per distinct key of `duplicates` |
| IndexProperties.GroupsInFileOrder | index.js:242-246 | each group lists enumerated paths in enumeration order, without repeats |
| IndexProperties.GroupHeadIsEarliest | index.js:242-246 | a group's first member is the earliest file with its digest |
| IndexProperties.GroupsInOrder | index.js:247-263 | groups are visited in the order in which their digests were first repeated |
| Selection.GroupPlan | index.js:263-296 | defines the copies the results loop makes, group after group |
| Selection.Plan | index.js:263-309 | defines every `copyFileToOutput` call of the results section: the group copies, then the unique copies |
| Selection.DuplicateCount | index.js:260-265 | defines `duplicateCount`: every member of each group except one |
| Selection.FilesToCopy | index.js:270-280 | `filesToCopy` is empty, the first file, or all files but the first |
| Selection.GroupCopies | index.js:270-295 | the per-group decision table: nothing without copying; the first file under selectOne or selectAll; nothing under copyUnique alone; all but the first under copying alone |
| Selection.UniqueCopies | index.js:298-308 | the unique images are copied, all or none; all iff there are none or copying is on with copyUnique or selectAll |
| Selection.Heads | index.js:272-274 | the first member of each group, in group order |
| Selection.GroupsPrefix | index.js:260-263 | the loop starts with no copies and a count of 0, and ends having seen every group |
| Selection.GroupsStep | index.js:263-295 | one group adds its copies to the plan and its size minus one to `duplicateCount` |
| Selection.NoMoveCopiesNothing | index.js:271-302 | without copying turned on, nothing at all is copied |
| Selection.MoveCopiesTails | index.js:276-291 | copying alone copies every group member except the first, and no unique image |
| Selection.CopyUniqueCopiesUniques | index.js:288-307 | copyUnique without selectOne or selectAll copies exactly the unique images |
| Selection.SelectOneCopiesHeads | index.js:272-294 | selectOne or selectAll copies exactly the first file of every group, in group order |
| Selection.SelectAllCopiesHeadsAndUniques | index.js:263-309 | selectAll copies the group heads followed by the unique images |
| Selection.SelectOneAndCopyUniqueIsSelectAll | index.js:288-302 | `-s -u` copies what `-s -u -a` copies |
| Common.DistinctConcat | index.js:263-309 | two repeat-free, disjoint lists concatenate without repeats |
| Common.Before | index.js:131-131 | the first piece of `split(c)`: a prefix without `c`, ending at the end or at a `c` |
| Common.BeforeIs | index.js:131-131 | any prefix without `c` that ends at the end or at a `c` is that first piece |
| Selection.DuplicatesAndGroups | index.js:265-313 | `duplicateCount` plus the number of groups is the total size of the groups |
| Selection.DuplicateCountBounds | index.js:265-313 | every group of two or more adds at least one duplicate |
| FileSystem.MakeDirectorySync | index.js:72-72 | defines `mkdirSync(p, { recursive: true })`: fails when `p` is empty or an ancestor is a file, otherwise makes every ancestor a directory (also line 160) |
| FileSystem.CopyFileSync | index.js:88-91 | defines `copyFileSync(src, dst)`: fails unless `src` is a file, the parent of `dst` a directory and `dst` no directory, otherwise writes the data at `dst` (also lines 340-343) |
| FileSystem.ParentOfJoin | index.js:78-86 | a joined path lies in the directory it was joined to |
| FileSystem.AncestryPrefixes | index.js:72-72 | the recursive `mkdirSync` touches only non-empty prefixes of its argument, including the argument itself |
| FileSystem.MakeDirectoryEffect | index.js:72-72 | `mkdirSync` succeeds iff the path is non-empty and none of its ancestors is a file; it then leaves the path and its ancestors directories, and changes nothing else |
| FileSystem.CopyFileEffect | index.js:88-91 | `copyFileSync` succeeds iff the source is a file, the target's directory exists and the target is not a directory; it then writes the source data to the target and changes nothing else |
| FileSystem.Disk.constructor | index.js:2-2 | the disk starts with the given entries |
| FileSystem.Disk.MakeDirectory | index.js:72-72 | reports whether `mkdirSync` returned and applies its effect, or leaves the disk unchanged |
| FileSystem.Disk.CopyFile | index.js:88-91 | reports whether `copyFileSync` returned and applies its effect, or leaves the disk unchanged |
| Copying.Destination | index.js:77-86 | defines the copy target: the base name in the directory, or the timestamped name when that path exists (also lines 328-338) |
| Copying.CopyImageResult | index.js:54-100 | defines what `copyImage` returns and leaves on disk |
| Copying.CopyToOutputResult | index.js:327-349 | defines what `copyFileToOutput` leaves on disk, a failed copy being caught |
| Copying.CopiesResult | index.js:289-307 | defines successive `copyFileToOutput` calls, the `k`-th at `clock(k)` |
| Copying.CopyImage | index.js:54-100 | `copyImage` returns and leaves on disk what `CopyImageResult` says |
| Copying.CopyFileToOutput | index.js:327-349 | `copyFileToOutput` leaves on disk what `CopyToOutputResult` says; a failed copy is caught and changes nothing |
| Copying.JoinInjective | index.js:78-86 | joining names to one directory tells the names apart |
| Copying.DestinationFacts | index.js:77-86 | the target lies in the directory; it is the base name when that is free, and a different path when it is taken |
| Copying.DestinationKeepsExtension | index.js:77-86 | the target carries the extension of the source |
| Copying.JoinBaseName | index.js:77-78 | `path.basename` of a joined name is that name |
| Copying.CopyImageRejects | index.js:57-68 | a missing source, or one whose lower-cased extension is not among the eight, gives `false` and no change |
| Copying.CopyImageFailure | index.js:70-99 | on `false`, the disk is either unchanged or changed only by the `mkdirSync` of the missing destination directory |
| Copying.CopyImageSuccess | index.js:70-95 | on `true`, the source was an image file, the destination directory exists, the target holds the source's data, an existing file under the base name is untouched, and nothing else changed except the directories made |
| Copying.CopyToOutputEffect | index.js:327-349 | the file under the base name is never overwritten; the disk is unchanged or has the source's data at a target inside the output directory |
| Copying.CopiesStayInOutput | index.js:289-307 | a sequence of copies changes nothing outside the output directory |
| Copying.StampedTargetMayBeTaken | index.js:332-340 | for every source, directory and time: when the base name is taken and a file already has the timestamped name, the copy replaces that file with the source's data, and the file under the base name is a different path |
| Copying.StampedDestination | index.js:332-338 | when the base name is taken, the target is the timestamped name, which lies in the directory and differs from the base name |
| Copying.CopyToTarget | index.js:339-344 | a copy whose target can be written puts the source's data there and changes nothing else |
| Copying.CopyToNowhere | index.js:346-348 | a copy that throws is caught and leaves the disk as it was |
| Copying.CopyImageFailsAfterMakingDirectory | index.js:70-99 | a source directory with an image extension and a missing destination make `copyImage` create the directory and still return `false` |
| Report.SummaryOf | index.js:311-314 | defines the numbers of the summary: images, `duplicateCount`, groups and unique images |
| Report.PlanOf | index.js:263-309 | defines the copies of `findDuplicates` for the enumerated files |
| Report.GroupsNonEmpty | index.js:263-274 | every group has a first member |
| Report.SummaryCounts | index.js:311-314 | the printed duplicates, groups and unique images add up to the files hashed successfully, which are at most all the images; there are at most as many groups as duplicates |
| Report.CountHashedBound | index.js:312-312 | at most every image is hashed successfully |
| Report.SelectAllCopiesEachOnce | index.js:263-309 | with distinct paths under selectAll, the copies are the group heads then the unique images, and no path is copied twice |
| Report.HeadsAndUniquesDistinct | index.js:263-309 | the group heads and the unique images are all different files |
| Report.HeadsDistinct | index.js:272-274 | different groups have different first files |
| Report.HeadFile | index.js:272-274 | a group head is an enumerated file with the group's digest |
| Report.GroupsDiffer | index.js:263-263 | different groups have different keys |
| Report.HeadIsNotUnique | index.js:252-274 | no group head is a unique image |
| Report.CopiesSnoc | index.js:289-307 | one more copy extends the sequence of copies by one |
| Report.ExtendByOne | index.js:289-307 | the copied prefix grows by the next file |
| Report.CopyNext | index.js:290-306 | one call of `copyFileToOutput` extends the disk state by one copy |
| Report.CopyEach | index.js:289-307 | the `for … of` copy loop performs the copies of its files, in order |
| Report.CopyGroup | index.js:270-295 | the copy branches for one group perform exactly the copies of the decision table |
| Report.ReportGroup | index.js:263-296 | one turn of the results loop adds the group's duplicates and performs its copies |
| Report.ReportResults | index.js:260-309 | the results loop yields the duplicate count of all the groups, and performs exactly the planned copies in order |
| Report.CopyUniques | index.js:298-308 | the copy branch for the unique images performs their copies, or none |
| Report.FindDuplicates | index.js:215-314 | no images: returns at once, disk unchanged; otherwise the summary of the files, with the disk after exactly the planned copies |
| Program.ImageFiles | index.js:214-233 | defines the files `findDuplicates` works on: the walk of the input directory, each path with its hash |
| Program.FindDuplicatesResult | index.js:214-314 | defines what `findDuplicates` returns and leaves on disk: the early return when there are no images, otherwise the summary and the planned copies |
| Program.RunResultOf | index.js:103-161 | defines how a run ends and what it leaves on disk: the loop's exits, the input check, the output `mkdirSync` and the search |
| Program.Hashed | index.js:232-233 | each enumerated path paired with its hash, in order |
| Program.Run | index.js:103-161 | the whole run ends, and leaves the disk, as `RunResultOf` says |
| Program.RunHelp | index.js:109-110 | when the first stop flag is a help flag, the run exits with 0 and the disk is unchanged |
| Program.RunCopy | index.js:126-144 | when the first stop flag is a copy flag, the run is `copyImage` on the split argument (exit 0 iff it succeeds), or, without a `:` or an argument, help with exit 0 and the disk unchanged |
| Program.RunMissingInput | index.js:152-156 | without a stop flag and with the input directory missing, the run exits with 1 and the disk is unchanged |
| Program.RunWithoutCopying | index.js:158-161 | with no `--help`/`-h`/`--copy`/`-c` and no copy-enabling flag, the run leaves the disk unchanged |
| Program.ImageFilesDistinct | index.js:186-211 | for a listing whose names are distinct and without `/` in every directory, the enumerated files have distinct paths |
| Program.SelectAllRunCopiesEachOnce | index.js:263-309 | for such a listing, `--select-all` copies the group heads and then the unique images, none of them twice |
| Program.RunWritesOnlyOutput | index.js:158-161 | a run that reaches the duplicate search changes nothing outside the output directory, apart from creating it and its ancestors |

## Left out

- `calculateImageHash` (lines 164-179): decoding, scaling and MD5 hashing with sharp and crypto are not modelled. The digest of each path is the parameter `hashOf`, and `None` stands for the `null` that comes back when decoding throws. A digest is a non-empty string, so `if (hash)` on line 241 skips exactly the `null` results.
- The `require('sharp')` check (lines 6-14) is not modelled, because it is loading a library.
- `readdirSync` and `statSync` are not modelled. The walk runs over a listing tree given as a parameter, which is not tied to the disk map. For the same reason the two `catch` blocks that skip unreadable entries (lines 201-207) are not modelled. The properties that need distinct paths hold for a listing in which the names of each directory differ and contain no `/`, as `readdirSync` returns them (`Program.ImageFilesDistinct`).
- `path.join` normalisation: `Join(dir, name)` is `dir + "/" + name`, without Node's handling of `.`, `..` and repeated separators.
- `FileSystem.CopyFileSync`: every failed copy leaves the disk unchanged. libuv's copyfile removes the destination when the copy fails after the destination was opened. So a failing copy onto a timestamped name that is already taken can lose the file there, for example when a directory passed the image test under `--no-recursive`. The model does not capture that loss.
- `mkdirSync` with `recursive: true` is modelled as atomic. When it fails, the model leaves the disk unchanged, although the real call may have created some ancestors first.
- `toLowerCase` is modelled on ASCII letters only (`PathNames.LowerAscii`). This gives the same image test as the full Unicode mapping. A non-ASCII character lower-cases to non-ASCII characters, with two exceptions: U+0130 becomes `i` followed by U+0307, and the Kelvin sign U+212A becomes `k`. No extension contains `k` or U+0307, so neither character can turn an extension into one of the eight. Every other non-ASCII character keeps the extension out of the list under both mappings.
- `Date.now()` is a parameter. The `k`-th call of `copyFileToOutput` in a run sees `clock(k)`, and the standalone copy sees `clock(0)`. This holds whether or not the call reads the clock.
- The console output is not modelled, because it changes no state. That covers the search messages, the progress line (lines 237-239), the group listing (lines 283-285), the summary lines (lines 311-323) and the help text (lines 28-51). The summary counters are modelled as the `Summary` value.
- The `async`/`await` structure and the top-level `.catch` (line 354) are not modelled. The run is sequential. The only exception that reaches the top level is a failing `mkdirSync` of the output directory (line 160), and it is modelled as `Crashed`.
- `process.exit` is not modelled as a call: the exit codes are the `RunResult` of a run.
- JavaScript object key order is modelled as insertion order. This is what `for … in` does for keys that are not array indices. A 32-character hex digest is never an array index, because it either contains a letter or exceeds 2^32 − 2.
- JavaScript numbers are doubles. The counters are modelled as unbounded integers, so counts beyond 2^53 are not modelled.
