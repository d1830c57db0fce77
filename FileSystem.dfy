/**
 * The part of Node's `fs` module the program uses to change the disk: `existsSync`,
 * `mkdirSync(p, { recursive: true })` and `copyFileSync`. The disk is a map from path strings
 * to entries; a call that throws leaves it as it was.
 */
module FileSystem {
  import opened Common
  import opened PathNames

  /** What a path names on disk. */
  datatype Node = Directory | File(data: seq<bv8>)

  type Entries = map<Path, Node>

  predicate IsDirectory(e: Entries, p: Path)
  {
    p in e && e[p].Directory?
  }

  predicate IsFile(e: Entries, p: Path)
  {
    p in e && e[p].File?
  }

  /** The directory whose entry `p` is: everything before its last `/`. */
  function Parent(p: Path): Path
  {
    var s := LastIndexOf(p, '/');
    if s < 0 then "." else p[..s]
  }

  /** The directory `mkdirSync(p, { recursive: true })` creates and every ancestor named in `p`. */
  function Ancestry(p: Path): set<Path>
  {
    set i | 0 < i <= |p| && (i == |p| || p[i] == '/') :: p[..i]
  }

  /**
   * `fs.mkdirSync(p, { recursive: true })`, or `None` when it throws: on an empty path, or when
   * `p` or one of its ancestors is a file. Directories already there are left alone.
   */
  function MakeDirectorySync(e: Entries, p: Path): Option<Entries>
  {
    if p == "" || exists q :: q in Ancestry(p) && IsFile(e, q) then None
    else Some(map q | q in e.Keys + Ancestry(p) :: if q in Ancestry(p) then Directory else e[q])
  }

  /**
   * `fs.copyFileSync(src, dst)`, or `None` when it throws: when `src` is not a file, when the
   * directory of `dst` does not exist, or when `dst` is a directory. An existing file at `dst`
   * is replaced.
   */
  function CopyFileSync(e: Entries, src: Path, dst: Path): Option<Entries>
  {
    if !IsFile(e, src) || !IsDirectory(e, Parent(dst)) || IsDirectory(e, dst) then None
    else Some(e[dst := File(e[src].data)])
  }

  // ---------------------------------------------------------------------------------------
  // Properties of the primitives

  /** A joined path lies in the directory it was joined to. */
  lemma ParentOfJoin(dir: Path, name: string)
    requires '/' !in name
    ensures Parent(Join(dir, name)) == dir
  {
    var p := Join(dir, name);
    assert p[|dir|] == '/';
    forall k | |dir| < k < |p| ensures p[k] != '/' {
      assert p[k] == name[k - |dir| - 1];
    }
    assert LastIndexOf(p, '/') == |dir|;
    assert p[..|dir|] == dir;
  }

  /** Every directory the recursive `mkdirSync` makes sure of is a prefix of its argument. */
  lemma AncestryPrefixes(p: Path)
    ensures p != "" ==> p in Ancestry(p)
    ensures forall q :: q in Ancestry(p) ==> q <= p && q != ""
  {
    if p != "" {
      assert p[..|p|] == p;
    }
  }

  /**
   * A successful recursive `mkdirSync` leaves `p` a directory, and changes nothing but `p` and
   * its ancestors, none of which was a file.
   */
  lemma MakeDirectoryEffect(e: Entries, p: Path)
    ensures MakeDirectorySync(e, p).Some? <==>
      p != "" && forall q :: q in Ancestry(p) ==> !IsFile(e, q)
    ensures MakeDirectorySync(e, p).Some? ==>
      var e' := MakeDirectorySync(e, p).value;
      && IsDirectory(e', p)
      && (forall q :: q in Ancestry(p) ==> IsDirectory(e', q))
      && (forall q :: q !in Ancestry(p) ==> (q in e' <==> q in e) && (q in e ==> e'[q] == e[q]))
  {
    AncestryPrefixes(p);
  }

  /** A successful copy makes `dst` a file holding the data of `src`, and changes nothing else. */
  lemma CopyFileEffect(e: Entries, src: Path, dst: Path)
    ensures CopyFileSync(e, src, dst).Some? <==>
      IsFile(e, src) && IsDirectory(e, Parent(dst)) && !IsDirectory(e, dst)
    ensures CopyFileSync(e, src, dst).Some? ==>
      var e' := CopyFileSync(e, src, dst).value;
      && e'.Keys == e.Keys + {dst}
      && e'[dst] == File(e[src].data)
      && (forall q :: q in e && q != dst ==> e'[q] == e[q])
  {
  }

  /** `fs`: the disk the program runs against. */
  class Disk {
    var entries: Entries

    constructor (initial: Entries)
      ensures entries == initial
    {
      entries := initial;
    }

    /** `fs.existsSync(p)`. */
    predicate Exists(p: Path)
      reads this
    {
      p in entries
    }

    /** `fs.mkdirSync(p, { recursive: true })`, reporting whether it returned or threw. */
    method MakeDirectory(p: Path) returns (ok: bool)
      modifies this
      ensures ok == MakeDirectorySync(old(entries), p).Some?
      ensures entries == if ok then MakeDirectorySync(old(entries), p).value else old(entries)
    {
      var r := MakeDirectorySync(entries, p);
      if r.Some? {
        entries := r.value;
        ok := true;
      } else {
        ok := false;
      }
    }

    /** `fs.copyFileSync(src, dst)`, reporting whether it returned or threw. */
    method CopyFile(src: Path, dst: Path) returns (ok: bool)
      modifies this
      ensures ok == CopyFileSync(old(entries), src, dst).Some?
      ensures entries == if ok then CopyFileSync(old(entries), src, dst).value else old(entries)
    {
      var r := CopyFileSync(entries, src, dst);
      if r.Some? {
        entries := r.value;
        ok := true;
      } else {
        ok := false;
      }
    }
  }
}
