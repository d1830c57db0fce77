/**
 * What the hashing loop and the unique-collecting loop of `findDuplicates` guarantee about
 * the groups and the unique images, stated against the enumeration itself.
 */
module IndexProperties {
  import opened Common
  import opened DuplicateIndex

  lemma {:induction false} SumLensOfLists(keys: seq<Hash>, vals: map<Hash, seq<Path>>)
    requires forall k :: k in keys ==> k in vals
    ensures SumLens(ListsOf(keys, vals)) == Total(keys, vals, Len)
  {
    if keys != [] {
      var n := |keys| - 1;
      SumLensOfLists(keys[..n], vals);
      assert ListsOf(keys, vals)[..n] == ListsOf(keys[..n], vals);
    }
  }

  lemma {:induction false} UniquesOfLength(keys: seq<Hash>, ih: map<Hash, seq<Path>>,
                                           du: map<Hash, seq<Path>>)
    requires forall k :: k in keys ==> k in ih
    requires forall k :: k in keys && |ih[k]| == 1 ==> k !in du
    ensures |UniquesOf(keys, ih, du)| == Total(keys, ih, Single)
  {
    if keys != [] {
      UniquesOfLength(keys[..|keys| - 1], ih, du);
    }
  }

  /** Every group of the index built from `files` has at least two members. */
  lemma GroupsHaveTwo(files: seq<Scanned>)
    ensures forall g :: g in Groups(Build(files)) ==> |g| >= 2
  {
    var gs := Groups(Build(files));
    GroupsAreClasses(files);
    forall g | g in gs ensures |g| >= 2 {
      var i :| 0 <= i < |gs| && gs[i] == g;
    }
  }

  lemma SinglesAreNotDuplicated(files: seq<Scanned>, ih: Dict, du: Dict)
    requires Build(files) == Index(ih, du)
    ensures forall k :: k in ih.keys && |ih.vals[k]| == 1 ==> k !in du.vals
  {
    BuildEstablishes(files);
  }

  /**
   * Every file that was hashed successfully is counted exactly once: as a member of one of
   * the groups or as a unique image.
   */
  lemma CountsAddUp(files: seq<Scanned>)
    ensures SumLens(Groups(Build(files))) + |Uniques(Build(files))| == CountHashed(files)
  {
    var ix := Build(files);
    var ih, du := ix.imageHashes, ix.duplicates;
    assert Counted(ix, files) by {
      BuildEstablishes(files);
    }
    SumLensOfLists(du.keys, du.vals);
    SinglesAreNotDuplicated(files, ih, du);
    UniquesOfLength(ih.keys, ih.vals, du.vals);
  }

  // ---------------------------------------------------------------------------------------
  // Membership

  /** With distinct paths, a file's path is in the list for `h` exactly when its digest is `h`. */
  lemma PathsWithMember(files: seq<Scanned>, h: Hash, a: nat)
    requires DistinctPaths(files) && a < |files|
    ensures files[a].path in PathsWith(files, h) <==> files[a].hash == Some(h)
  {
    PositionsFacts(files, h);
    var ps := PositionsOf(files, h);
    if files[a].hash == Some(h) {
      var k :| 0 <= k < |ps| && ps[k] == a;
      assert PathsWith(files, h)[k] == files[a].path;
    }
    if files[a].path in PathsWith(files, h) {
      var k :| 0 <= k < |ps| && PathsWith(files, h)[k] == files[a].path;
      assert files[ps[k]].path == files[a].path;
      assert ps[k] == a;
    }
  }

  lemma {:induction false} UniquesOfMember(keys: seq<Hash>, ih: map<Hash, seq<Path>>,
                                           du: map<Hash, seq<Path>>, p: Path)
    requires forall k :: k in keys ==> k in ih
    ensures p in UniquesOf(keys, ih, du) <==>
      exists k :: k in keys && |ih[k]| == 1 && k !in du && ih[k][0] == p
  {
    if keys != [] {
      var n := |keys| - 1;
      UniquesOfMember(keys[..n], ih, du, p);
      assert keys == keys[..n] + [keys[n]];
    }
  }

  /** The index built from `files` describes `files`. */
  lemma BuildDescribes(files: seq<Scanned>, ih: Dict, du: Dict)
    requires Build(files) == Index(ih, du)
    ensures Describes(Index(ih, du), files)
  {
    BuildEstablishes(files);
  }

  /** The list facts of an index that describes `files`, without the rest. */
  lemma ListFacts(files: seq<Scanned>, ih: Dict, du: Dict)
    requires Describes(Index(ih, du), files)
    ensures ih.Valid() && du.Valid()
    ensures forall a :: 0 <= a < |files| && files[a].hash.Some? ==> files[a].hash.value in ih.vals
    ensures forall h :: h in ih.vals ==> ih.vals[h] == PathsWith(files, h)
    ensures forall h :: h in du.vals <==> h in ih.vals && |ih.vals[h]| >= 2
    ensures forall h :: h in du.vals ==> du.vals[h] == ih.vals[h]
  {
  }

  /** A file belongs to group `gi` exactly when its digest is that group's key. */
  lemma GroupMember(files: seq<Scanned>, ih: Dict, du: Dict, a: nat, gi: nat)
    requires Describes(Index(ih, du), files)
    requires DistinctPaths(files) && a < |files| && gi < |du.keys|
    ensures du.Valid()
    ensures files[a].path in Groups(Index(ih, du))[gi] <==> files[a].hash == Some(du.keys[gi])
  {
    ListFacts(files, ih, du);
    var h := du.keys[gi];
    assert Groups(Index(ih, du))[gi] == du.vals[h];
    assert h in du.vals;
    PathsWithMember(files, h, a);
  }

  /** A file is a unique image exactly when it is the only file with its digest. */
  lemma UniqueMember(files: seq<Scanned>, ih: Dict, du: Dict, a: nat)
    requires Describes(Index(ih, du), files)
    requires DistinctPaths(files) && a < |files|
    ensures ih.Valid()
    ensures files[a].path in Uniques(Index(ih, du)) <==>
      files[a].hash.Some? && |PathsWith(files, files[a].hash.value)| == 1
  {
    ListFacts(files, ih, du);
    var p := files[a].path;
    UniquesOfMember(ih.keys, ih.vals, du.vals, p);
    if p in Uniques(Index(ih, du)) {
      var k :| k in ih.keys && |ih.vals[k]| == 1 && k !in du.vals && ih.vals[k][0] == p;
      assert p in PathsWith(files, k);
      PathsWithMember(files, k, a);
    }
    if files[a].hash.Some? && |PathsWith(files, files[a].hash.value)| == 1 {
      var h := files[a].hash.value;
      PathsWithMember(files, h, a);
      assert h in ih.keys && ih.vals[h] == PathsWith(files, h);
      assert ih.vals[h][0] == p;
    }
  }

  /**
   * The partition: a file whose hash failed is in no group and is not unique; a file with a
   * digest is either in exactly one group (when another file shares its digest) or is a
   * unique image (when none does), never both and never neither.
   */
  lemma Partition(files: seq<Scanned>, a: nat)
    requires DistinctPaths(files) && a < |files|
    ensures var ix := Build(files);
      var groups, uniques, p := Groups(ix), Uniques(ix), files[a].path;
      && (files[a].hash.None? ==>
            p !in uniques && forall gi :: 0 <= gi < |groups| ==> p !in groups[gi])
      && (files[a].hash.Some? ==>
            var n := |PathsWith(files, files[a].hash.value)|;
            && (p in uniques <==> n == 1)
            && ((exists gi :: 0 <= gi < |groups| && p in groups[gi]) <==> n >= 2)
            && (forall gi, gj :: 0 <= gi < gj < |groups| ==> !(p in groups[gi] && p in groups[gj]))
            && ((p in uniques) != (exists gi :: 0 <= gi < |groups| && p in groups[gi])))
  {
    if files[a].hash.None? {
      UnhashedIsNowhere(files, a);
    } else {
      HashedIsInOnePlace(files, a);
    }
  }

  /** A file is in group `gi` of the built index exactly when its digest is that group's key. */
  lemma GroupMembership(files: seq<Scanned>, a: nat)
    requires DistinctPaths(files) && a < |files|
    ensures var ix := Build(files);
      && ix.imageHashes.Valid() && ix.duplicates.Valid()
      && files[a].path in Uniques(ix) <==>
           files[a].hash.Some? && |PathsWith(files, files[a].hash.value)| == 1
    ensures var ix := Build(files);
      forall gi :: 0 <= gi < |ix.duplicates.keys| ==>
        (files[a].path in Groups(ix)[gi] <==> files[a].hash == Some(ix.duplicates.keys[gi]))
  {
    var ix := Build(files);
    var ih, du := ix.imageHashes, ix.duplicates;
    BuildDescribes(files, ih, du);
    UniqueMember(files, ih, du, a);
    forall gi | 0 <= gi < |du.keys|
      ensures files[a].path in Groups(ix)[gi] <==> files[a].hash == Some(du.keys[gi])
    {
      GroupMember(files, ih, du, a, gi);
    }
  }

  /** A file whose hash failed is in no group and is not a unique image. */
  lemma UnhashedIsNowhere(files: seq<Scanned>, a: nat)
    requires DistinctPaths(files) && a < |files| && files[a].hash.None?
    ensures var ix := Build(files);
      && files[a].path !in Uniques(ix)
      && forall gi :: 0 <= gi < |Groups(ix)| ==> files[a].path !in Groups(ix)[gi]
  {
    GroupMembership(files, a);
  }

  /**
   * A file with a digest is unique exactly when it is alone with it, is in a group exactly when
   * it is not, and then in one group only.
   */
  lemma HashedIsInOnePlace(files: seq<Scanned>, a: nat)
    requires DistinctPaths(files) && a < |files| && files[a].hash.Some?
    ensures var ix := Build(files);
      var groups, uniques, p := Groups(ix), Uniques(ix), files[a].path;
      var n := |PathsWith(files, files[a].hash.value)|;
      && (p in uniques <==> n == 1)
      && ((exists gi :: 0 <= gi < |groups| && p in groups[gi]) <==> n >= 2)
      && (forall gi, gj :: 0 <= gi < gj < |groups| ==> !(p in groups[gi] && p in groups[gj]))
      && ((p in uniques) != (exists gi :: 0 <= gi < |groups| && p in groups[gi]))
  {
    var ix := Build(files);
    var ih, du := ix.imageHashes, ix.duplicates;
    var p := files[a].path;
    var h := files[a].hash.value;
    BuildDescribes(files, ih, du);
    ListFacts(files, ih, du);
    GroupMembership(files, a);
    PathsWithMember(files, h, a);
    var n := |PathsWith(files, h)|;
    assert n >= 1;
    if n >= 2 {
      assert h in du.vals;
      var gi :| 0 <= gi < |du.keys| && du.keys[gi] == h;
      assert p in Groups(ix)[gi];
    }
  }

  // ---------------------------------------------------------------------------------------
  // Order

  /** The key facts and key orders of the index built from `files`, without the rest. */
  lemma BuildOrdered(files: seq<Scanned>, ih: Dict, du: Dict)
    requires Build(files) == Index(ih, du)
    ensures KeyFacts(Index(ih, du), files) && Ordered(Index(ih, du), files)
  {
    BuildEstablishes(files);
  }

  /** The `imageHashes` facts that the order of `uniqueImages` rests on. */
  lemma FirstKeys(files: seq<Scanned>, ih: Dict, du: Dict)
    requires Describes(Index(ih, du), files)
    requires KeyFacts(Index(ih, du), files) && Ordered(Index(ih, du), files)
    ensures forall k :: k in ih.keys ==> k in ih.vals
    ensures forall i :: 0 <= i < |ih.keys| ==>
      && ih.vals[ih.keys[i]] == PathsWith(files, ih.keys[i])
      && |PositionsOf(files, ih.keys[i])| == |ih.vals[ih.keys[i]]| >= 1
    ensures forall i, j :: 0 <= i < j < |ih.keys| ==>
      PositionsOf(files, ih.keys[i])[0] < PositionsOf(files, ih.keys[j])[0]
  {
    forall i | 0 <= i < |ih.keys|
      ensures && ih.vals[ih.keys[i]] == PathsWith(files, ih.keys[i])
              && |PositionsOf(files, ih.keys[i])| == |ih.vals[ih.keys[i]]| >= 1
    {
      assert ih.keys[i] in ih.vals;
    }
  }

  /** A one-element position list starts with any position it holds. */
  lemma SinglePosition(files: seq<Scanned>, h: Hash, a: nat)
    requires a < |files| && files[a].hash == Some(h) && |PositionsOf(files, h)| == 1
    ensures PositionsOf(files, h)[0] == a
  {
    PositionsFacts(files, h);
  }

  /** Every member of `ps` is the path of an enumerated file. */
  ghost predicate FromFiles(files: seq<Scanned>, ps: seq<Path>)
  {
    forall u :: 0 <= u < |ps| ==> exists a :: 0 <= a < |files| && files[a].path == ps[u]
  }

  /** The members of `ps` come in the order of the files they are the paths of. */
  ghost predicate InFileOrder(files: seq<Scanned>, ps: seq<Path>)
  {
    forall u, v, a, b ::
      (0 <= u < v < |ps| && 0 <= a < |files| && 0 <= b < |files|
       && files[a].path == ps[u] && files[b].path == ps[v]) ==> a < b
  }

  /** Every member of `ps` is the only file with its digest, which is one of `keys`. */
  ghost predicate SinglyHeld(files: seq<Scanned>, keys: seq<Hash>, ps: seq<Path>)
  {
    forall u, a :: 0 <= u < |ps| && 0 <= a < |files| && files[a].path == ps[u] ==>
      exists i :: 0 <= i < |keys| && files[a].hash == Some(keys[i])
                  && |PositionsOf(files, keys[i])| == 1
  }

  /** The `imageHashes` keys, their lists and their order by first file. */
  ghost predicate FirstKeyOrder(files: seq<Scanned>, keys: seq<Hash>, ih: map<Hash, seq<Path>>)
  {
    && (forall i :: 0 <= i < |keys| ==>
          && keys[i] in ih
          && ih[keys[i]] == PathsWith(files, keys[i])
          && |PositionsOf(files, keys[i])| == |ih[keys[i]]| >= 1)
    && (forall i, j :: 0 <= i < j < |keys| ==>
          PositionsOf(files, keys[i])[0] < PositionsOf(files, keys[j])[0])
  }

  lemma FirstKeyOrderPrefix(files: seq<Scanned>, keys: seq<Hash>, ih: map<Hash, seq<Path>>,
                            n: nat)
    requires FirstKeyOrder(files, keys, ih) && n <= |keys|
    ensures FirstKeyOrder(files, keys[..n], ih)
  {
  }

  lemma AppendInOrder(files: seq<Scanned>, ps: seq<Path>, c: nat)
    requires DistinctPaths(files) && c < |files|
    requires InFileOrder(files, ps)
    requires forall u, a :: 0 <= u < |ps| && 0 <= a < |files| && files[a].path == ps[u] ==> a < c
    ensures InFileOrder(files, ps + [files[c].path])
  {
    var qs := ps + [files[c].path];
    forall u, v, a, b |
      0 <= u < v < |qs| && 0 <= a < |files| && 0 <= b < |files|
      && files[a].path == qs[u] && files[b].path == qs[v]
      ensures a < b
    {
      assert qs[u] == ps[u];
      if v < |ps| {
        assert qs[v] == ps[v];
      } else {
        assert b == c;
      }
    }
  }

  lemma AppendSinglyHeld(files: seq<Scanned>, keys: seq<Hash>, ps: seq<Path>, c: nat)
    requires DistinctPaths(files) && keys != [] && c < |files|
    requires SinglyHeld(files, keys[..|keys| - 1], ps)
    requires files[c].hash == Some(keys[|keys| - 1])
    requires |PositionsOf(files, keys[|keys| - 1])| == 1
    ensures SinglyHeld(files, keys, ps + [files[c].path])
  {
    var n := |keys| - 1;
    var qs := ps + [files[c].path];
    forall u, a | 0 <= u < |qs| && 0 <= a < |files| && files[a].path == qs[u]
      ensures exists i :: 0 <= i < |keys| && files[a].hash == Some(keys[i])
                          && |PositionsOf(files, keys[i])| == 1
    {
      if u < |ps| {
        assert qs[u] == ps[u];
        var i :| 0 <= i < n && files[a].hash == Some(keys[..n][i])
                 && |PositionsOf(files, keys[..n][i])| == 1;
        assert keys[..n][i] == keys[i];
      } else {
        assert a == c;
        assert files[a].hash == Some(keys[n]);
      }
    }
  }

  /** An earlier single-file key's only file comes before the first file of the last key. */
  lemma SinglyHeldBefore(files: seq<Scanned>, keys: seq<Hash>, ih: map<Hash, seq<Path>>,
                         ps: seq<Path>)
    requires keys != [] && FirstKeyOrder(files, keys, ih)
    requires SinglyHeld(files, keys[..|keys| - 1], ps)
    ensures forall u, a :: 0 <= u < |ps| && 0 <= a < |files| && files[a].path == ps[u] ==>
      a < PositionsOf(files, keys[|keys| - 1])[0]
  {
    var n := |keys| - 1;
    forall u, a | 0 <= u < |ps| && 0 <= a < |files| && files[a].path == ps[u]
      ensures a < PositionsOf(files, keys[n])[0]
    {
      var i :| 0 <= i < n && files[a].hash == Some(keys[..n][i])
               && |PositionsOf(files, keys[..n][i])| == 1;
      assert keys[..n][i] == keys[i];
      SinglePosition(files, keys[i], a);
    }
  }

  /**
   * Over keys ordered by their first file, the collected unique images come in the order of
   * their files, and each is the only file with its digest.
   */
  lemma {:induction false} UniquesOfOrdered(files: seq<Scanned>, keys: seq<Hash>,
                                            ih: map<Hash, seq<Path>>, du: map<Hash, seq<Path>>)
    requires DistinctPaths(files)
    requires forall k :: k in keys ==> k in ih
    requires FirstKeyOrder(files, keys, ih)
    ensures FromFiles(files, UniquesOf(keys, ih, du))
    ensures SinglyHeld(files, keys, UniquesOf(keys, ih, du))
    ensures InFileOrder(files, UniquesOf(keys, ih, du))
  {
    if keys != [] {
      var n := |keys| - 1;
      var k := keys[n];
      var pre := UniquesOf(keys[..n], ih, du);
      FirstKeyOrderPrefix(files, keys, ih, n);
      UniquesOfOrdered(files, keys[..n], ih, du);
      if |ih[k]| == 1 && k !in du {
        var c := PositionsOf(files, k)[0];
        assert ih[k][0] == files[c].path;
        assert UniquesOf(keys, ih, du) == pre + [files[c].path];
        SinglyHeldBefore(files, keys, ih, pre);
        AppendInOrder(files, pre, c);
        AppendSinglyHeld(files, keys, pre, c);
        AppendFromFiles(files, pre, c);
      } else {
        assert UniquesOf(keys, ih, du) == pre;
        SinglyHeldWider(files, keys, pre);
      }
    }
  }

  lemma AppendFromFiles(files: seq<Scanned>, ps: seq<Path>, c: nat)
    requires FromFiles(files, ps) && c < |files|
    ensures FromFiles(files, ps + [files[c].path])
  {
    var qs := ps + [files[c].path];
    forall u | 0 <= u < |qs| ensures exists a :: 0 <= a < |files| && files[a].path == qs[u] {
      if u < |ps| {
        assert qs[u] == ps[u];
      } else {
        assert files[c].path == qs[u];
      }
    }
  }

  /** A member held singly under some keys is held singly under more keys. */
  lemma SinglyHeldWider(files: seq<Scanned>, keys: seq<Hash>, ps: seq<Path>)
    requires keys != [] && SinglyHeld(files, keys[..|keys| - 1], ps)
    ensures SinglyHeld(files, keys, ps)
  {
    var n := |keys| - 1;
    forall u, a | 0 <= u < |ps| && 0 <= a < |files| && files[a].path == ps[u]
      ensures exists i :: 0 <= i < |keys| && files[a].hash == Some(keys[i])
                          && |PositionsOf(files, keys[i])| == 1
    {
      var i :| 0 <= i < n && files[a].hash == Some(keys[..n][i])
               && |PositionsOf(files, keys[..n][i])| == 1;
      assert keys[..n][i] == keys[i];
    }
  }

  /**
   * `uniqueImages` lists its images in enumeration order, so it never lists one twice; each
   * is the path of an enumerated file.
   */
  lemma UniquesInOrder(files: seq<Scanned>)
    requires DistinctPaths(files)
    ensures FromFiles(files, Uniques(Build(files)))
    ensures InFileOrder(files, Uniques(Build(files)))
    ensures Distinct(Uniques(Build(files)))
  {
    var ix := Build(files);
    var ih, du := ix.imageHashes, ix.duplicates;
    BuildDescribes(files, ih, du);
    BuildOrdered(files, ih, du);
    FirstKeys(files, ih, du);
    UniquesOfOrdered(files, ih.keys, ih.vals, du.vals);
    var us := Uniques(ix);
    forall u, v | 0 <= u < v < |us| ensures us[u] != us[v] {
      var a :| 0 <= a < |files| && files[a].path == us[u];
    }
  }

  /**
   * The groups are the digest classes with at least two files: group `gi` lists, in
   * enumeration order, the paths of all the files whose digest is the `gi`-th key of
   * `duplicates`, and those keys are distinct.
   */
  lemma GroupsAreClasses(files: seq<Scanned>)
    ensures var du := Build(files).duplicates;
      var gs := Groups(Build(files));
      && |gs| == |du.keys| && Distinct(du.keys)
      && (forall gi :: 0 <= gi < |gs| ==>
            gs[gi] == PathsWith(files, du.keys[gi]) && |gs[gi]| >= 2)
  {
    var ix := Build(files);
    var ih, du := ix.imageHashes, ix.duplicates;
    BuildDescribes(files, ih, du);
    ListFacts(files, ih, du);
    forall gi | 0 <= gi < |du.keys|
      ensures Groups(ix)[gi] == PathsWith(files, du.keys[gi]) && |Groups(ix)[gi]| >= 2
    {
      assert du.keys[gi] in du.vals;
    }
  }

  /** The members of each group come in enumeration order, and neither repeats. */
  lemma GroupsInFileOrder(files: seq<Scanned>, gi: nat)
    requires DistinctPaths(files) && gi < |Groups(Build(files))|
    ensures FromFiles(files, Groups(Build(files))[gi])
    ensures InFileOrder(files, Groups(Build(files))[gi])
    ensures Distinct(Groups(Build(files))[gi])
  {
    GroupsAreClasses(files);
    var h := Build(files).duplicates.keys[gi];
    var g := Groups(Build(files))[gi];
    var ps := PositionsOf(files, h);
    PositionsFacts(files, h);
    assert g == PathsWith(files, h);
    forall u | 0 <= u < |g| ensures exists a :: 0 <= a < |files| && files[a].path == g[u] {
      assert files[ps[u]].path == g[u];
    }
    forall u, v, a, b |
      0 <= u < v < |g| && 0 <= a < |files| && 0 <= b < |files|
      && files[a].path == g[u] && files[b].path == g[v]
      ensures a < b
    {
      assert files[ps[u]].path == g[u] && files[ps[v]].path == g[v];
    }
  }

  /** A group's first member is the earliest file with the group's digest. */
  lemma GroupHeadIsEarliest(files: seq<Scanned>, gi: nat, a: nat, b: nat)
    requires DistinctPaths(files) && gi < |Groups(Build(files))|
    requires a < |files| && files[a].hash == Some(Build(files).duplicates.keys[gi])
    requires b < |files| && Groups(Build(files))[gi] != []
    requires files[b].path == Groups(Build(files))[gi][0]
    ensures b <= a
  {
    GroupsAreClasses(files);
    var h := Build(files).duplicates.keys[gi];
    var ps := PositionsOf(files, h);
    PositionsFacts(files, h);
    assert files[ps[0]].path == Groups(Build(files))[gi][0];
    assert b == ps[0];
  }

  /**
   * The groups come in the order in which their digests were first repeated: the second member
   * of an earlier group was enumerated before the second member of a later one.
   */
  lemma GroupsInOrder(files: seq<Scanned>, gi: nat, gj: nat, a: nat, b: nat)
    requires DistinctPaths(files) && gi < gj < |Groups(Build(files))|
    requires a < |files| && |Groups(Build(files))[gi]| > 1
    requires files[a].path == Groups(Build(files))[gi][1]
    requires b < |files| && |Groups(Build(files))[gj]| > 1
    requires files[b].path == Groups(Build(files))[gj][1]
    ensures a < b
  {
    var ix := Build(files);
    var ih, du := ix.imageHashes, ix.duplicates;
    GroupsAreClasses(files);
    BuildOrdered(files, ih, du);
    var pi, pj := PositionsOf(files, du.keys[gi]), PositionsOf(files, du.keys[gj]);
    assert files[pi[1]].path == Groups(ix)[gi][1];
    assert files[pj[1]].path == Groups(ix)[gj][1];
    assert a == pi[1] && b == pj[1];
  }
}
