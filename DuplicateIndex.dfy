/**
 * The hashing loop of `findDuplicates`: every enumerated file is hashed in turn and its path
 * is appended to the list for its digest in `imageHashes`; a digest is recorded in
 * `duplicates` once its list has a second member. Afterwards the single members of one-element
 * lists are collected as `uniqueImages`.
 *
 * A JavaScript object is modelled as its keys in insertion order plus a map, since `for ... in`
 * visits the keys of an object in the order they were first assigned (hex digests are never
 * array-index-like keys). `duplicates[hash] = imageHashes[hash]` stores a reference to the very
 * list that later pushes extend; the model reassigns the value on every push instead, and
 * `Describes` proves that both objects always hold the same list for a duplicated digest.
 */
module DuplicateIndex {
  import opened Common

  /** One enumerated file and the result of hashing it (`null` when decoding failed). */
  datatype Scanned = Scanned(path: Path, hash: Option<Hash>)

  /** A JavaScript object from digests to lists of paths. */
  datatype Dict = Dict(keys: seq<Hash>, vals: map<Hash, seq<Path>>) {
    /** An object's keys are its own properties, each once. */
    ghost predicate Valid()
    {
      Distinct(keys) && (forall k :: k in vals <==> k in keys)
    }
  }

  const EmptyDict: Dict := Dict([], map[])

  /** `obj[h] = v`: a new key goes to the end of the key order, an existing one stays. */
  function Put(d: Dict, h: Hash, v: seq<Path>): (r: Dict)
    requires d.Valid()
    ensures r.Valid()
    ensures r.vals == d.vals[h := v]
    ensures r.keys == if h in d.vals then d.keys else d.keys + [h]
  {
    Dict(if h in d.vals then d.keys else d.keys + [h], d.vals[h := v])
  }

  /** The two objects of the hashing loop. */
  datatype Index = Index(imageHashes: Dict, duplicates: Dict)

  /** One turn of the hashing loop, for the file `f`. */
  function AddFile(ix: Index, f: Scanned): Index
    requires ix.imageHashes.Valid() && ix.duplicates.Valid()
  {
    match f.hash
    case None => ix
    case Some(h) =>
      if h !in ix.imageHashes.vals then
        Index(Put(ix.imageHashes, h, [f.path]), ix.duplicates)
      else
        var list := ix.imageHashes.vals[h] + [f.path];
        Index(Put(ix.imageHashes, h, list), Put(ix.duplicates, h, list))
  }

  /** The objects after the hashing loop has handled every file of `files`, in order. */
  function Build(files: seq<Scanned>): (ix: Index)
    ensures ix.imageHashes.Valid() && ix.duplicates.Valid()
  {
    if files == [] then Index(EmptyDict, EmptyDict)
    else AddFile(Build(files[..|files| - 1]), files[|files| - 1])
  }

  // ---------------------------------------------------------------------------------------
  // Reference definitions over the enumeration

  /** The positions in `files` of the files whose digest is `h`, in increasing order. */
  function PositionsOf(files: seq<Scanned>, h: Hash): (r: seq<nat>)
    ensures forall k :: 0 <= k < |r| ==> r[k] < |files| && files[r[k]].hash == Some(h)
  {
    if files == [] then []
    else
      var n := |files| - 1;
      PositionsOf(files[..n], h) + if files[n].hash == Some(h) then [n] else []
  }

  /**
   * `PositionsOf(files, h)` lists, in increasing order, exactly the positions of the files
   * whose digest is `h`.
   */
  lemma {:induction false} PositionsFacts(files: seq<Scanned>, h: Hash)
    ensures var r := PositionsOf(files, h);
      && (forall k, l :: 0 <= k < l < |r| ==> r[k] < r[l])
      && (forall a :: 0 <= a < |files| && files[a].hash == Some(h) ==> a in r)
  {
    if files != [] {
      var n := |files| - 1;
      PositionsFacts(files[..n], h);
    }
  }

  /** The paths of the files whose digest is `h`, in enumeration order. */
  function PathsWith(files: seq<Scanned>, h: Hash): seq<Path>
  {
    var ps := PositionsOf(files, h);
    seq(|ps|, k requires 0 <= k < |ps| => files[ps[k]].path)
  }

  /** The number of files that were hashed successfully. */
  function CountHashed(files: seq<Scanned>): nat
  {
    if files == [] then 0
    else CountHashed(files[..|files| - 1]) + if files[|files| - 1].hash.Some? then 1 else 0
  }

  /** The enumerator never yields one path twice. */
  predicate DistinctPaths(files: seq<Scanned>)
  {
    forall a, b :: 0 <= a < b < |files| ==> files[a].path != files[b].path
  }

  /** The sum of `g` over the lists of `keys`. */
  function Total(keys: seq<Hash>, vals: map<Hash, seq<Path>>, g: seq<Path> -> int): int
    requires forall k :: k in keys ==> k in vals
  {
    if keys == [] then 0
    else Total(keys[..|keys| - 1], vals, g) + g(vals[keys[|keys| - 1]])
  }

  function Len(s: seq<Path>): int { |s| }

  function Single(s: seq<Path>): int { if |s| == 1 then 1 else 0 }

  // ---------------------------------------------------------------------------------------
  // What the objects hold

  /**
   * The objects after hashing `files`: `imageHashes` has a list exactly for the digests that
   * occur, holding the paths with that digest in enumeration order; `duplicates` has exactly
   * the digests whose list has two or more members, with the same list.
   */
  ghost predicate Describes(ix: Index, files: seq<Scanned>)
  {
    var ih := ix.imageHashes;
    var du := ix.duplicates;
    && ih.Valid() && du.Valid()
    && (forall a :: 0 <= a < |files| && files[a].hash.Some? ==> files[a].hash.value in ih.vals)
    && (forall h :: h in ih.vals ==> ih.vals[h] == PathsWith(files, h) && ih.vals[h] != [])
    && (forall h :: h in ih.vals ==> |PositionsOf(files, h)| == |ih.vals[h]|)
    && (forall h :: h in du.vals <==> h in ih.vals && |ih.vals[h]| >= 2)
    && (forall h :: h in du.vals ==> du.vals[h] == ih.vals[h])
  }

  /** What the key orders rely on: every key has a first file, every duplicated key a second. */
  ghost predicate KeyFacts(ix: Index, files: seq<Scanned>)
  {
    && (forall i :: 0 <= i < |ix.imageHashes.keys| ==>
          |PositionsOf(files, ix.imageHashes.keys[i])| >= 1)
    && (forall i :: 0 <= i < |ix.duplicates.keys| ==>
          |PositionsOf(files, ix.duplicates.keys[i])| >= 2)
  }

  /**
   * The key orders: `imageHashes` keys go by the position of the first file with that digest,
   * `duplicates` keys by the position of the second one.
   */
  ghost predicate Ordered(ix: Index, files: seq<Scanned>)
    requires KeyFacts(ix, files)
  {
    var ih := ix.imageHashes;
    var du := ix.duplicates;
    && (forall i, j :: 0 <= i < j < |ih.keys| ==>
          PositionsOf(files, ih.keys[i])[0] < PositionsOf(files, ih.keys[j])[0])
    && (forall i, j :: 0 <= i < j < |du.keys| ==>
          PositionsOf(files, du.keys[i])[1] < PositionsOf(files, du.keys[j])[1])
  }

  lemma DescribesKeyFacts(ix: Index, files: seq<Scanned>)
    requires Describes(ix, files)
    ensures KeyFacts(ix, files)
  {
    forall i | 0 <= i < |ix.imageHashes.keys|
      ensures |PositionsOf(files, ix.imageHashes.keys[i])| >= 1
    {
      assert ix.imageHashes.keys[i] in ix.imageHashes.vals;
    }
    forall i | 0 <= i < |ix.duplicates.keys|
      ensures |PositionsOf(files, ix.duplicates.keys[i])| >= 2
    {
      assert ix.duplicates.keys[i] in ix.duplicates.vals;
    }
  }

  /** Every hashed file is counted once: in the long lists or as a single. */
  ghost predicate Counted(ix: Index, files: seq<Scanned>)
    requires ix.imageHashes.Valid() && ix.duplicates.Valid()
  {
    Total(ix.duplicates.keys, ix.duplicates.vals, Len)
      + Total(ix.imageHashes.keys, ix.imageHashes.vals, Single)
      == CountHashed(files)
  }

  lemma PositionsSnoc(files: seq<Scanned>, f: Scanned, h: Hash)
    ensures PositionsOf(files + [f], h)
            == PositionsOf(files, h) + if f.hash == Some(h) then [|files|] else []
    ensures PathsWith(files + [f], h)
            == PathsWith(files, h) + if f.hash == Some(h) then [f.path] else []
  {
    var fs := files + [f];
    assert fs[..|files|] == files;
    var ps, ps' := PositionsOf(files, h), PositionsOf(fs, h);
    assert ps' == ps + if f.hash == Some(h) then [|files|] else [];
    var qs := PathsWith(files, h) + if f.hash == Some(h) then [f.path] else [];
    assert |PathsWith(fs, h)| == |qs|;
    forall k | 0 <= k < |qs| ensures PathsWith(fs, h)[k] == qs[k] {
      if k < |ps| {
        assert ps'[k] == ps[k] < |files|;
      }
    }
  }

  /** A digest that has no list yet belongs to no file so far. */
  lemma AbsentHasNoPaths(ix: Index, files: seq<Scanned>, h: Hash)
    requires Describes(ix, files)
    requires h !in ix.imageHashes.vals
    ensures PositionsOf(files, h) == [] && PathsWith(files, h) == []
  {
    NoPositions(files, h);
  }

  lemma {:induction false} NoPositions(files: seq<Scanned>, h: Hash)
    requires forall a :: 0 <= a < |files| ==> files[a].hash != Some(h)
    ensures PositionsOf(files, h) == []
  {
    if files != [] {
      NoPositions(files[..|files| - 1], h);
    }
  }

  lemma AddFileDescribes(ix: Index, files: seq<Scanned>, f: Scanned)
    requires Describes(ix, files)
    ensures Describes(AddFile(ix, f), files + [f])
  {
    match f.hash
    case None =>
      assert AddFile(ix, f) == ix;
      forall h {
        PositionsSnoc(files, f, h);
      }
    case Some(h0) =>
      if h0 !in ix.imageHashes.vals {
        AbsentHasNoPaths(ix, files, h0);
        AddNewDescribes(ix, files, f, h0);
      } else {
        AddExistingDescribes(ix, files, f, h0);
      }
  }

  lemma AddNewDescribes(ix: Index, files: seq<Scanned>, f: Scanned, h0: Hash)
    requires Describes(ix, files)
    requires f.hash == Some(h0) && h0 !in ix.imageHashes.vals
    requires PositionsOf(files, h0) == []
    ensures Describes(AddFile(ix, f), files + [f])
  {
    var files' := files + [f];
    var ih, du := ix.imageHashes, ix.duplicates;
    var ih' := Put(ih, h0, [f.path]);
    assert AddFile(ix, f) == Index(ih', du);
    forall a | 0 <= a < |files'| && files'[a].hash.Some?
      ensures files'[a].hash.value in ih'.vals
    {
      if a < |files| {
        assert files'[a] == files[a];
      }
    }
    forall h | h in ih'.vals
      ensures ih'.vals[h] == PathsWith(files', h) && ih'.vals[h] != []
      ensures |PositionsOf(files', h)| == |ih'.vals[h]|
    {
      PositionsSnoc(files, f, h);
      if h == h0 {
        assert PathsWith(files', h) == [f.path];
      } else {
        assert ih'.vals[h] == ih.vals[h];
      }
    }
    forall h ensures h in du.vals <==> h in ih'.vals && |ih'.vals[h]| >= 2 {
      if h == h0 {
        assert h !in du.vals;
      }
    }
    forall h | h in du.vals ensures du.vals[h] == ih'.vals[h] {
      assert h != h0;
    }
  }

  lemma AddExistingDescribes(ix: Index, files: seq<Scanned>, f: Scanned, h0: Hash)
    requires Describes(ix, files)
    requires f.hash == Some(h0) && h0 in ix.imageHashes.vals
    ensures Describes(AddFile(ix, f), files + [f])
  {
    var files' := files + [f];
    var ih, du := ix.imageHashes, ix.duplicates;
    var list := ih.vals[h0] + [f.path];
    var ih' := Put(ih, h0, list);
    var du' := Put(du, h0, list);
    assert AddFile(ix, f) == Index(ih', du');
    forall a | 0 <= a < |files'| && files'[a].hash.Some?
      ensures files'[a].hash.value in ih'.vals
    {
      if a < |files| {
        assert files'[a] == files[a];
      }
    }
    forall h | h in ih'.vals
      ensures ih'.vals[h] == PathsWith(files', h) && ih'.vals[h] != []
      ensures |PositionsOf(files', h)| == |ih'.vals[h]|
    {
      PositionsSnoc(files, f, h);
      if h == h0 {
        assert PathsWith(files', h) == list;
      } else {
        assert ih'.vals[h] == ih.vals[h];
      }
    }
    forall h ensures h in du'.vals <==> h in ih'.vals && |ih'.vals[h]| >= 2 {
      if h == h0 {
        assert |list| >= 2;
      } else {
        assert h in du'.vals <==> h in du.vals;
      }
    }
    forall h | h in du'.vals ensures du'.vals[h] == ih'.vals[h] {
    }
  }

  lemma AddFileOrdered(ix: Index, files: seq<Scanned>, f: Scanned)
    requires Describes(ix, files) && KeyFacts(ix, files) && Ordered(ix, files)
    ensures Describes(AddFile(ix, f), files + [f]) && KeyFacts(AddFile(ix, f), files + [f])
    ensures Ordered(AddFile(ix, f), files + [f])
  {
    AddFileDescribes(ix, files, f);
    var ix' := AddFile(ix, f);
    DescribesKeyFacts(ix', files + [f]);
    match f.hash
    case None =>
      forall h ensures PositionsOf(files + [f], h) == PositionsOf(files, h) {
        PositionsSnoc(files, f, h);
      }
      assert ix' == ix;
    case Some(h0) =>
      forall h | h != h0 ensures PositionsOf(files + [f], h) == PositionsOf(files, h) {
        PositionsSnoc(files, f, h);
      }
      PositionsSnoc(files, f, h0);
      if h0 !in ix.imageHashes.vals {
        AbsentHasNoPaths(ix, files, h0);
        NewKeyOrdered(ix, ix', files, f, h0);
      } else if h0 in ix.duplicates.vals {
        assert |PositionsOf(files, h0)| == |ix.imageHashes.vals[h0]|;
        SameKeysOrdered(ix, ix', files, f, h0);
      } else {
        assert |PositionsOf(files, h0)| == |ix.imageHashes.vals[h0]|;
        SecondMemberOrdered(ix, ix', files, f, h0);
      }
  }

  /** A first file with a new digest: its key goes last, and it is the latest file. */
  lemma NewKeyOrdered(ix: Index, ix': Index, files: seq<Scanned>, f: Scanned, h0: Hash)
    requires KeyFacts(ix, files) && Ordered(ix, files) && KeyFacts(ix', files + [f])
    requires PositionsOf(files, h0) == []
    requires ix'.imageHashes.keys == ix.imageHashes.keys + [h0]
    requires ix'.duplicates == ix.duplicates
    requires PositionsOf(files + [f], h0) == [|files|]
    requires forall h :: h != h0 ==> PositionsOf(files + [f], h) == PositionsOf(files, h)
    ensures Ordered(ix', files + [f])
  {
    var files' := files + [f];
    var ih, du, ih' := ix.imageHashes, ix.duplicates, ix'.imageHashes;
    forall i, j | 0 <= i < j < |ih'.keys|
      ensures PositionsOf(files', ih'.keys[i])[0] < PositionsOf(files', ih'.keys[j])[0]
    {
      assert ih'.keys[i] == ih.keys[i];
      PositionsFacts(files, ih.keys[i]);
      if j < |ih.keys| {
        assert ih'.keys[j] == ih.keys[j];
      }
    }
  }

  /** Another file for a digest that is already duplicated: no key moves. */
  lemma SameKeysOrdered(ix: Index, ix': Index, files: seq<Scanned>, f: Scanned, h0: Hash)
    requires KeyFacts(ix, files) && Ordered(ix, files) && KeyFacts(ix', files + [f])
    requires |PositionsOf(files, h0)| >= 2
    requires ix'.imageHashes.keys == ix.imageHashes.keys
    requires ix'.duplicates.keys == ix.duplicates.keys
    requires PositionsOf(files + [f], h0) == PositionsOf(files, h0) + [|files|]
    requires forall h :: h != h0 ==> PositionsOf(files + [f], h) == PositionsOf(files, h)
    ensures Ordered(ix', files + [f])
  {
    var files' := files + [f];
    var ih, du := ix.imageHashes, ix.duplicates;
    forall i | 0 <= i < |ih.keys|
      ensures PositionsOf(files', ih.keys[i])[0] == PositionsOf(files, ih.keys[i])[0]
    {
    }
    forall i | 0 <= i < |du.keys|
      ensures PositionsOf(files', du.keys[i])[1] == PositionsOf(files, du.keys[i])[1]
    {
    }
  }

  /** The second file for a digest: its key goes last in `duplicates`. */
  lemma SecondMemberOrdered(ix: Index, ix': Index, files: seq<Scanned>, f: Scanned, h0: Hash)
    requires KeyFacts(ix, files) && Ordered(ix, files) && KeyFacts(ix', files + [f])
    requires |PositionsOf(files, h0)| == 1
    requires ix'.imageHashes.keys == ix.imageHashes.keys
    requires ix'.duplicates.keys == ix.duplicates.keys + [h0]
    requires PositionsOf(files + [f], h0) == PositionsOf(files, h0) + [|files|]
    requires forall h :: h != h0 ==> PositionsOf(files + [f], h) == PositionsOf(files, h)
    ensures Ordered(ix', files + [f])
  {
    var files' := files + [f];
    var ih, du, du' := ix.imageHashes, ix.duplicates, ix'.duplicates;
    forall i, j | 0 <= i < j < |ih.keys|
      ensures PositionsOf(files', ih.keys[i])[0] < PositionsOf(files', ih.keys[j])[0]
    {
      assert PositionsOf(files', ih.keys[i])[0] == PositionsOf(files, ih.keys[i])[0];
      assert PositionsOf(files', ih.keys[j])[0] == PositionsOf(files, ih.keys[j])[0];
    }
    forall i, j | 0 <= i < j < |du'.keys|
      ensures PositionsOf(files', du'.keys[i])[1] < PositionsOf(files', du'.keys[j])[1]
    {
      SecondMemberPair(ix, files, f, du'.keys, h0, i, j);
    }
  }

  /** Two keys of `duplicates` once the second file for `h0` has put that key last. */
  lemma SecondMemberPair(ix: Index, files: seq<Scanned>, f: Scanned, keys': seq<Hash>, h0: Hash,
                         i: nat, j: nat)
    requires KeyFacts(ix, files) && Ordered(ix, files)
    requires |PositionsOf(files, h0)| == 1
    requires keys' == ix.duplicates.keys + [h0] && i < j < |keys'|
    requires PositionsOf(files + [f], h0) == PositionsOf(files, h0) + [|files|]
    requires forall h :: h != h0 ==> PositionsOf(files + [f], h) == PositionsOf(files, h)
    ensures |PositionsOf(files + [f], keys'[i])| >= 2 && |PositionsOf(files + [f], keys'[j])| >= 2
    ensures PositionsOf(files + [f], keys'[i])[1] < PositionsOf(files + [f], keys'[j])[1]
  {
    var du := ix.duplicates;
    var ki, kj := keys'[i], keys'[j];
    assert ki == du.keys[i];
    assert |PositionsOf(files, ki)| >= 2;
    assert PositionsOf(files + [f], ki) == PositionsOf(files, ki);
    if j < |du.keys| {
      assert kj == du.keys[j];
      assert |PositionsOf(files, kj)| >= 2;
      assert PositionsOf(files + [f], kj) == PositionsOf(files, kj);
    } else {
      assert kj == h0;
      assert PositionsOf(files + [f], kj)[1] == |files|;
    }
  }

  // ---------------------------------------------------------------------------------------
  // Counting

  lemma {:induction false} TotalOutside(keys: seq<Hash>, vals: map<Hash, seq<Path>>,
                                        g: seq<Path> -> int, h: Hash, v: seq<Path>)
    requires forall k :: k in keys ==> k in vals
    requires h !in keys
    ensures Total(keys, vals[h := v], g) == Total(keys, vals, g)
  {
    if keys != [] {
      TotalOutside(keys[..|keys| - 1], vals, g, h, v);
    }
  }

  lemma {:induction false} TotalInside(keys: seq<Hash>, vals: map<Hash, seq<Path>>,
                                       g: seq<Path> -> int, h: Hash, v: seq<Path>)
    requires forall k :: k in keys ==> k in vals
    requires Distinct(keys) && h in keys
    ensures Total(keys, vals[h := v], g) == Total(keys, vals, g) - g(vals[h]) + g(v)
  {
    var n := |keys| - 1;
    var init := keys[..n];
    assert Distinct(init);
    if keys[n] == h {
      assert h !in init;
      TotalOutside(init, vals, g, h, v);
    } else {
      assert h in init;
      TotalInside(init, vals, g, h, v);
    }
  }

  lemma TotalSnoc(keys: seq<Hash>, vals: map<Hash, seq<Path>>, g: seq<Path> -> int, h: Hash)
    requires forall k :: k in keys ==> k in vals
    requires h in vals
    ensures Total(keys + [h], vals, g) == Total(keys, vals, g) + g(vals[h])
  {
    assert (keys + [h])[..|keys|] == keys;
  }

  lemma CountHashedSnoc(files: seq<Scanned>, f: Scanned)
    ensures CountHashed(files + [f]) == CountHashed(files) + if f.hash.Some? then 1 else 0
  {
    assert (files + [f])[..|files|] == files;
  }

  lemma AddFileCounted(ix: Index, files: seq<Scanned>, f: Scanned)
    requires Describes(ix, files) && Counted(ix, files)
    ensures Counted(AddFile(ix, f), files + [f])
  {
    CountHashedSnoc(files, f);
    match f.hash
    case None =>
      assert AddFile(ix, f) == ix;
    case Some(h0) =>
      if h0 !in ix.imageHashes.vals {
        AddNewCounted(ix, files, f, h0);
      } else if h0 in ix.duplicates.vals {
        AddMoreCounted(ix, files, f, h0);
      } else {
        AddSecondCounted(ix, files, f, h0);
      }
  }

  /** A first file for `h0` adds a single. */
  lemma AddNewCounted(ix: Index, files: seq<Scanned>, f: Scanned, h0: Hash)
    requires Describes(ix, files) && Counted(ix, files)
    requires f.hash == Some(h0) && h0 !in ix.imageHashes.vals
    requires CountHashed(files + [f]) == CountHashed(files) + 1
    ensures Counted(AddFile(ix, f), files + [f])
  {
    var ih, du := ix.imageHashes, ix.duplicates;
    var ih' := Put(ih, h0, [f.path]);
    assert AddFile(ix, f) == Index(ih', du);
    assert h0 !in ih.keys && ih'.keys == ih.keys + [h0];
    TotalOutside(ih.keys, ih.vals, Single, h0, [f.path]);
    TotalSnoc(ih.keys, ih.vals[h0 := [f.path]], Single, h0);
  }

  /** A further file for a duplicated `h0` lengthens one long list. */
  lemma AddMoreCounted(ix: Index, files: seq<Scanned>, f: Scanned, h0: Hash)
    requires Describes(ix, files) && Counted(ix, files)
    requires f.hash == Some(h0) && h0 in ix.duplicates.vals
    requires CountHashed(files + [f]) == CountHashed(files) + 1
    ensures Counted(AddFile(ix, f), files + [f])
  {
    var ih, du := ix.imageHashes, ix.duplicates;
    var list := ih.vals[h0] + [f.path];
    assert AddFile(ix, f) == Index(Put(ih, h0, list), Put(du, h0, list));
    assert h0 in ih.keys && h0 in du.keys;
    assert |ih.vals[h0]| >= 2 && du.vals[h0] == ih.vals[h0];
    TotalInside(ih.keys, ih.vals, Single, h0, list);
    TotalInside(du.keys, du.vals, Len, h0, list);
  }

  /** The second file for `h0` turns a single into a long list of two. */
  lemma AddSecondCounted(ix: Index, files: seq<Scanned>, f: Scanned, h0: Hash)
    requires Describes(ix, files) && Counted(ix, files)
    requires f.hash == Some(h0) && h0 in ix.imageHashes.vals && h0 !in ix.duplicates.vals
    requires CountHashed(files + [f]) == CountHashed(files) + 1
    ensures Counted(AddFile(ix, f), files + [f])
  {
    var ih, du := ix.imageHashes, ix.duplicates;
    var list := ih.vals[h0] + [f.path];
    var du' := Put(du, h0, list);
    assert AddFile(ix, f) == Index(Put(ih, h0, list), du');
    assert h0 in ih.keys && h0 !in du.keys && du'.keys == du.keys + [h0];
    assert |ih.vals[h0]| == 1;
    TotalInside(ih.keys, ih.vals, Single, h0, list);
    TotalOutside(du.keys, du.vals, Len, h0, list);
    TotalSnoc(du.keys, du.vals[h0 := list], Len, h0);
  }

  /** Everything the hashing loop establishes about its two objects. */
  ghost predicate BuildFacts(ix: Index, files: seq<Scanned>)
  {
    Describes(ix, files) && KeyFacts(ix, files) && Ordered(ix, files) && Counted(ix, files)
  }

  lemma {:induction false} BuildEstablishes(files: seq<Scanned>)
    ensures BuildFacts(Build(files), files)
  {
    if files != [] {
      var n := |files| - 1;
      var pre := files[..n];
      BuildEstablishes(pre);
      assert pre + [files[n]] == files;
      AddFileFacts(Build(pre), pre, files[n]);
    }
  }

  /** One turn of the hashing loop keeps everything it establishes. */
  lemma AddFileFacts(ix: Index, files: seq<Scanned>, f: Scanned)
    requires BuildFacts(ix, files)
    ensures BuildFacts(AddFile(ix, f), files + [f])
  {
    AddFileOrdered(ix, files, f);
    AddFileCounted(ix, files, f);
  }

  // ---------------------------------------------------------------------------------------
  // The loops of findDuplicates

  /**
   * The hashing loop: it hashes the files one at a time in enumeration order, counting each
   * one in `processed`, and extends `imageHashes` and `duplicates`.
   */
  method IndexFiles(files: seq<Scanned>) returns (imageHashes: Dict, duplicates: Dict, processed: nat)
    ensures Index(imageHashes, duplicates) == Build(files)
    ensures processed == |files|
  {
    imageHashes, duplicates, processed := EmptyDict, EmptyDict, 0;
    var i := 0;
    while i < |files|
      invariant 0 <= i <= |files|
      invariant Index(imageHashes, duplicates) == Build(files[..i])
      invariant processed == i
    {
      var file := files[i];
      assert files[..i + 1][..i] == files[..i];
      processed := processed + 1;
      if file.hash.Some? {
        var hash := file.hash.value;
        if hash !in imageHashes.vals {
          imageHashes := Put(imageHashes, hash, [file.path]);
        } else {
          var list := imageHashes.vals[hash] + [file.path];
          imageHashes := Put(imageHashes, hash, list);
          duplicates := Put(duplicates, hash, list);
        }
      }
      i := i + 1;
    }
    assert files[..i] == files;
  }

  /**
   * The single members of one-element lists that are not duplicated, in key order: what the
   * loop `for (const hash in imageHashes)` pushes onto `uniqueImages`.
   */
  function UniquesOf(keys: seq<Hash>, ih: map<Hash, seq<Path>>, du: map<Hash, seq<Path>>)
    : seq<Path>
    requires forall k :: k in keys ==> k in ih
  {
    if keys == [] then []
    else
      var k := keys[|keys| - 1];
      UniquesOf(keys[..|keys| - 1], ih, du)
        + if |ih[k]| == 1 && k !in du then [ih[k][0]] else []
  }

  /** `uniqueImages` after the hashing loop has built `ix`. */
  function Uniques(ix: Index): seq<Path>
    requires ix.imageHashes.Valid()
  {
    UniquesOf(ix.imageHashes.keys, ix.imageHashes.vals, ix.duplicates.vals)
  }

  /** The lists of `keys`, in key order. */
  function ListsOf(keys: seq<Hash>, vals: map<Hash, seq<Path>>): (r: seq<seq<Path>>)
    requires forall k :: k in keys ==> k in vals
    ensures |r| == |keys|
    ensures forall i :: 0 <= i < |keys| ==> r[i] == vals[keys[i]]
  {
    if keys == [] then [] else ListsOf(keys[..|keys| - 1], vals) + [vals[keys[|keys| - 1]]]
  }

  /** The groups in the order `for (const hash in duplicates)` visits them. */
  function Groups(ix: Index): seq<seq<Path>>
    requires ix.duplicates.Valid()
  {
    ListsOf(ix.duplicates.keys, ix.duplicates.vals)
  }

  /** The loop that collects `uniqueImages`. */
  method CollectUniques(imageHashes: Dict, duplicates: Dict) returns (uniqueImages: seq<Path>)
    requires imageHashes.Valid()
    ensures uniqueImages == UniquesOf(imageHashes.keys, imageHashes.vals, duplicates.vals)
  {
    var keys := imageHashes.keys;
    uniqueImages := [];
    var j := 0;
    while j < |keys|
      invariant 0 <= j <= |keys|
      invariant uniqueImages == UniquesOf(keys[..j], imageHashes.vals, duplicates.vals)
    {
      var hash := keys[j];
      assert keys[..j + 1][..j] == keys[..j];
      if |imageHashes.vals[hash]| == 1 && hash !in duplicates.vals {
        uniqueImages := uniqueImages + [imageHashes.vals[hash][0]];
      }
      j := j + 1;
    }
    assert keys[..j] == keys;
  }
}
