/** Types shared by every part of the model. */
module Common {

  /** A value that may be missing: `calculateImageHash` returns a hex digest or `null`. */
  datatype Option<+T> = None | Some(value: T)

  /** A path string as the enumerator produced it; compared by equality only. */
  type Path = string

  /**
   * The hex MD5 digest of the reduced image; its content is never inspected. A digest is never
   * empty, so the test `if (hash)` fails only for `null`.
   */
  type Hash = s: string | s != "" witness "0"

  /** True iff no element of `s` occurs twice. */
  predicate Distinct<T(==)>(s: seq<T>)
  {
    forall i, j :: 0 <= i < j < |s| ==> s[i] != s[j]
  }

  /** The total number of paths in `groups`. */
  function SumLens(groups: seq<seq<Path>>): int
  {
    if groups == [] then 0 else SumLens(groups[..|groups| - 1]) + |groups[|groups| - 1]|
  }

  /** Two lists without repeats and without a common element concatenate without repeats. */
  lemma DistinctConcat<T>(xs: seq<T>, ys: seq<T>)
    requires Distinct(xs) && Distinct(ys)
    requires forall i, j :: 0 <= i < |xs| && 0 <= j < |ys| ==> xs[i] != ys[j]
    ensures Distinct(xs + ys)
  {
    var zs := xs + ys;
    forall i, j | 0 <= i < j < |zs| ensures zs[i] != zs[j] {
      if j < |xs| {
        assert zs[i] == xs[i] && zs[j] == xs[j];
      } else if i < |xs| {
        assert zs[i] == xs[i] && zs[j] == ys[j - |xs|];
      } else {
        assert zs[i] == ys[i - |xs|] && zs[j] == ys[j - |xs|];
      }
    }
  }

  /** The longest prefix of `s` without `c`: the first piece of `s.split(c)`. */
  function Before(s: string, c: char): (r: string)
    ensures r <= s
    ensures c !in r
    ensures |r| < |s| ==> s[|r|] == c
  {
    if |s| == 0 || s[0] == c then "" else [s[0]] + Before(s[1..], c)
  }

  /** A prefix without `c` that ends where `s` ends or at a `c` is the first piece. */
  lemma BeforeIs(s: string, c: char, t: string)
    requires t <= s && c !in t
    requires |t| == |s| || s[|t|] == c
    ensures Before(s, c) == t
  {
  }
}
