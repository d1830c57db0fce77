/**
 * `findImageFiles`: the walk of `scanDirectory` over the input directory. The listing is a
 * tree of the entries `readdirSync` returns, in the order it returns them, each marked as a
 * directory or not as `statSync` reports it. Every entry is either descended into or, when
 * its path carries one of the image extensions, pushed onto the result.
 */
module Scan {
  import opened Common
  import opened PathNames

  /** One entry of a directory listing. */
  datatype Entry = FileEntry(name: string) | DirEntry(name: string, children: seq<Entry>)

  /** What the loop body of `scanDirectory` does with one entry. */
  datatype Action = Descend | Push | Skip

  /** The test on `stat.isDirectory() && config.recursive` and then on the extension. */
  function EntryAction(isDirectory: bool, recursive: bool, filePath: Path): Action
  {
    if isDirectory && recursive then Descend
    else if IsImagePath(filePath) then Push
    else Skip
  }

  /** `scanDirectory(dir)` over the entries `es`, in order. */
  function ScanEntries(dir: Path, es: seq<Entry>, recursive: bool): seq<Path>
    decreases es
  {
    if es == [] then [] else ScanEntry(dir, es[0], recursive) + ScanEntries(dir, es[1..], recursive)
  }

  /** One turn of the loop of `scanDirectory(dir)`, for the entry `e`. */
  function ScanEntry(dir: Path, e: Entry, recursive: bool): seq<Path>
    decreases e
  {
    var filePath := Join(dir, e.name);
    match EntryAction(e.DirEntry?, recursive, filePath)
    case Descend => ScanEntries(filePath, e.children, recursive)
    case Push => [filePath]
    case Skip => []
  }

  // ---------------------------------------------------------------------------------------
  // Reference definitions

  /** The members of `ps` that pass `keep`, in order. */
  function Filter(ps: seq<Path>, keep: Path -> bool): (r: seq<Path>)
    ensures forall k :: 0 <= k < |r| ==> keep(r[k])
  {
    if ps == [] then [] else (if keep(ps[0]) then [ps[0]] else []) + Filter(ps[1..], keep)
  }

  /** The members of `ps` that pass the image test, in order. */
  function ImagesOf(ps: seq<Path>): seq<Path>
  {
    Filter(ps, IsImagePath)
  }

  /** The paths of every file entry in the tree, directories already expanded, in walk order. */
  function FilePaths(dir: Path, es: seq<Entry>): seq<Path>
    decreases es
  {
    if es == [] then [] else FilePathsOf(dir, es[0]) + FilePaths(dir, es[1..])
  }

  function FilePathsOf(dir: Path, e: Entry): seq<Path>
    decreases e
  {
    match e
    case FileEntry(name) => [Join(dir, name)]
    case DirEntry(name, children) => FilePaths(Join(dir, name), children)
  }

  /** The paths of the entries of the listing itself, files and directories alike. */
  function TopPaths(dir: Path, es: seq<Entry>): (r: seq<Path>)
    ensures |r| == |es| && forall k :: 0 <= k < |es| ==> r[k] == Join(dir, es[k].name)
  {
    seq(|es|, k requires 0 <= k < |es| => Join(dir, es[k].name))
  }

  // ---------------------------------------------------------------------------------------
  // Properties

  lemma {:induction false} FilterConcat(a: seq<Path>, b: seq<Path>, keep: Path -> bool)
    ensures Filter(a + b, keep) == Filter(a, keep) + Filter(b, keep)
  {
    if a != [] {
      assert (a + b)[0] == a[0] && (a + b)[1..] == a[1..] + b;
      FilterConcat(a[1..], b, keep);
    } else {
      assert a + b == b;
    }
  }

  /**
   * With `recursive` on, the walk yields exactly the image paths among the files of the whole
   * tree, in the order the listings give them.
   */
  lemma {:induction false} RecursiveScan(dir: Path, es: seq<Entry>)
    ensures ScanEntries(dir, es, true) == ImagesOf(FilePaths(dir, es))
    decreases es
  {
    if es != [] {
      RecursiveScanEntry(dir, es[0]);
      RecursiveScan(dir, es[1..]);
      FilterConcat(FilePathsOf(dir, es[0]), FilePaths(dir, es[1..]), IsImagePath);
    }
  }

  lemma {:induction false} RecursiveScanEntry(dir: Path, e: Entry)
    ensures ScanEntry(dir, e, true) == ImagesOf(FilePathsOf(dir, e))
    decreases e
  {
    match e
    case FileEntry(name) =>
      var p := Join(dir, name);
      assert FilePathsOf(dir, e) == [p];
      assert [p][1..] == [];
      assert Filter([p], IsImagePath) == if IsImagePath(p) then [p] else [];
      assert ScanEntry(dir, e, true) == if IsImagePath(p) then [p] else [];
    case DirEntry(name, children) =>
      RecursiveScan(Join(dir, name), children);
  }

  /**
   * With `--no-recursive`, the walk reads no sub-directory and applies the image test to the
   * paths of the listing's own entries: a directory whose name ends in an image extension is
   * pushed like an image file.
   */
  lemma {:induction false} FlatScan(dir: Path, es: seq<Entry>)
    ensures ScanEntries(dir, es, false) == ImagesOf(TopPaths(dir, es))
  {
    if es != [] {
      FlatScan(dir, es[1..]);
      var ts := TopPaths(dir, es);
      assert ts[1..] == TopPaths(dir, es[1..]);
      assert ts[0] == Join(dir, es[0].name);
    }
  }

  /** Everything the walk yields passes the image test. */
  lemma ScanYieldsImages(dir: Path, es: seq<Entry>, recursive: bool)
    ensures forall k :: 0 <= k < |ScanEntries(dir, es, recursive)| ==>
      IsImagePath(ScanEntries(dir, es, recursive)[k])
  {
    var r := ScanEntries(dir, es, recursive);
    if recursive {
      RecursiveScan(dir, es);
    } else {
      FlatScan(dir, es);
    }
  }

  /**
   * A sub-directory whose path passes the image test is yielded as an image, whatever it
   * holds, by a walk without recursion; a recursive walk descends into it instead.
   */
  lemma DirectoryNamedLikeImage(dir: Path, name: string, children: seq<Entry>)
    requires IsImagePath(Join(dir, name))
    ensures ScanEntries(dir, [DirEntry(name, children)], false) == [Join(dir, name)]
    ensures ScanEntries(dir, [DirEntry(name, children)], true)
            == ScanEntries(Join(dir, name), children, true)
  {
    assert [DirEntry(name, children)][1..] == [];
  }

  // ---------------------------------------------------------------------------------------
  // Distinct paths

  /**
   * What `readdirSync` guarantees of a listing: the names in one directory differ and none
   * holds a separator; the same holds in every sub-directory.
   */
  predicate WellFormedListing(es: seq<Entry>)
    decreases es
  {
    && (forall i, j :: 0 <= i < j < |es| ==> es[i].name != es[j].name)
    && (forall k :: 0 <= k < |es| ==> WellFormedEntry(es[k]))
  }

  predicate WellFormedEntry(e: Entry)
    decreases e
  {
    '/' !in e.name && (e.DirEntry? ==> WellFormedListing(e.children))
  }

  /** The names of the entries of a listing. */
  function Names(es: seq<Entry>): set<string>
  {
    set k | 0 <= k < |es| :: es[k].name
  }

  /** The component of `p` right below `dir`, for a path `p` inside `dir`. */
  function Component(dir: Path, p: Path): string
    requires dir + "/" <= p
  {
    Before(p[|dir| + 1..], '/')
  }

  /** A path at or below `dir/name` has `name` as its component below `dir`. */
  lemma ComponentOfJoin(dir: Path, name: string, p: Path)
    requires '/' !in name
    requires p == Join(dir, name) || Join(dir, name) + "/" <= p
    ensures dir + "/" <= p && Component(dir, p) == name
  {
    var s := p[|dir| + 1..];
    assert Join(dir, name) <= p;
    assert s[..|name|] == name;
    if p != Join(dir, name) {
      assert s[|name|] == p[|dir| + 1 + |name|] == '/';
    }
    BeforeIs(s, '/', name);
  }

  /**
   * One entry of a well-formed listing yields paths without repeats, all of them below `dir`
   * in the component named after the entry.
   */
  lemma {:induction false} ScanEntryDistinct(dir: Path, e: Entry, recursive: bool)
    requires WellFormedEntry(e)
    ensures Distinct(ScanEntry(dir, e, recursive))
    ensures forall p :: p in ScanEntry(dir, e, recursive) ==>
      dir + "/" <= p && Component(dir, p) == e.name
    decreases e
  {
    var filePath := Join(dir, e.name);
    match EntryAction(e.DirEntry?, recursive, filePath)
    case Descend =>
      ScanEntriesDistinct(filePath, e.children, recursive);
      forall p | p in ScanEntries(filePath, e.children, recursive)
        ensures dir + "/" <= p && Component(dir, p) == e.name
      {
        ComponentOfJoin(dir, e.name, p);
      }
    case Push =>
      ComponentOfJoin(dir, e.name, filePath);
    case Skip =>
  }

  /**
   * A well-formed listing yields paths without repeats, each below `dir` in the component of
   * one of the listing's names.
   */
  lemma {:induction false} ScanEntriesDistinct(dir: Path, es: seq<Entry>, recursive: bool)
    requires WellFormedListing(es)
    ensures Distinct(ScanEntries(dir, es, recursive))
    ensures forall p :: p in ScanEntries(dir, es, recursive) ==>
      dir + "/" <= p && Component(dir, p) in Names(es)
    decreases es
  {
    if es != [] {
      var xs, ys := ScanEntry(dir, es[0], recursive), ScanEntries(dir, es[1..], recursive);
      RestWellFormed(es);
      ScanEntryDistinct(dir, es[0], recursive);
      ScanEntriesDistinct(dir, es[1..], recursive);
      forall i, j | 0 <= i < |xs| && 0 <= j < |ys| ensures xs[i] != ys[j] {
        assert xs[i] in xs && ys[j] in ys;
      }
      DistinctConcat(xs, ys);
      forall p | p in xs + ys ensures dir + "/" <= p && Component(dir, p) in Names(es) {
        assert p in xs || p in ys;
      }
    }
  }

  /** The rest of a well-formed listing is well-formed and does not repeat the first name. */
  lemma RestWellFormed(es: seq<Entry>)
    requires es != [] && WellFormedListing(es)
    ensures WellFormedEntry(es[0]) && WellFormedListing(es[1..])
    ensures es[0].name !in Names(es[1..]) && Names(es[1..]) <= Names(es)
  {
    var rest := es[1..];
    forall k | 0 <= k < |rest| ensures rest[k] == es[k + 1] {}
    forall n | n in Names(rest) ensures n in Names(es) {
      var k :| 0 <= k < |rest| && rest[k].name == n;
      assert es[k + 1].name == n;
    }
  }
}
