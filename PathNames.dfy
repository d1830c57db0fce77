/**
 * The string logic of file names: Node's `path.basename` and `path.extname` on POSIX paths,
 * the case-insensitive image-extension test and the timestamped name that avoids overwriting
 * an existing file in the destination directory.
 */
module PathNames {
  import opened Common

  /** The eight extensions the program accepts as images. */
  const ImageExtensions: seq<string> := [".jpg", ".jpeg", ".png", ".gif", ".bmp", ".webp", ".tiff", ".tif"]

  /** The position of the last `c` in `s`, or -1 when `s` has none. */
  function LastIndexOf(s: string, c: char): (r: int)
    ensures -1 <= r < |s|
    ensures r >= 0 ==> s[r] == c
    ensures forall k :: r < k < |s| ==> s[k] != c
  {
    if |s| == 0 then -1
    else if s[|s| - 1] == c then |s| - 1
    else LastIndexOf(s[..|s| - 1], c)
  }

  /** `p` without the run of `/` at its end. */
  function TrimTrailingSlashes(p: string): (r: string)
    ensures r <= p
    ensures r == [] || r[|r| - 1] != '/'
    ensures forall k :: |r| <= k < |p| ==> p[k] == '/'
  {
    if |p| > 0 && p[|p| - 1] == '/' then TrimTrailingSlashes(p[..|p| - 1]) else p
  }

  /** Node's `path.basename(p)`: the last component, trailing separators ignored. */
  function BaseName(p: string): (r: string)
    ensures '/' !in r
  {
    var t := TrimTrailingSlashes(p);
    t[LastIndexOf(t, '/') + 1..]
  }

  /**
   * Node's `path.extname` on a name without separators: the suffix that starts at the last
   * `.`, or empty when there is no dot, when the last dot is the first character, or when the
   * name is exactly "..".
   */
  function BareExtName(name: string): (r: string)
  {
    var d := LastIndexOf(name, '.');
    if d <= 0 || name == ".." then "" else name[d..]
  }

  /** Node's `path.extname(p)` on a POSIX path: the extension of its last component. */
  function ExtName(p: string): string
  {
    BareExtName(BaseName(p))
  }

  /** Node's `path.basename(name, path.extname(name))` for a name without separators. */
  function StemName(name: string): string
  {
    name[..|name| - |BareExtName(name)|]
  }

  function LowerChar(c: char): char
  {
    if 'A' <= c <= 'Z' then (c as int - 'A' as int + 'a' as int) as char else c
  }

  /** `toLowerCase` restricted to ASCII letters; see README for why that suffices here. */
  function LowerAscii(s: string): (r: string)
    ensures |r| == |s|
  {
    seq(|s|, i requires 0 <= i < |s| => LowerChar(s[i]))
  }

  /** `imageExtensions.includes(path.extname(p).toLowerCase())`. */
  predicate IsImagePath(p: string)
  {
    LowerAscii(ExtName(p)) in ImageExtensions
  }

  function DigitChar(d: nat): char
    requires d < 10
  {
    "0123456789"[d]
  }

  /** The decimal text of `n`, as a template literal renders an integral number. */
  function Decimal(n: nat): (r: string)
    ensures |r| >= 1
    ensures forall k :: 0 <= k < |r| ==> '0' <= r[k] <= '9'
  {
    if n < 10 then [DigitChar(n)] else Decimal(n / 10) + [DigitChar(n % 10)]
  }

  /** `${basename}_${timestamp}${extname}`: the name used when `name` is already taken. */
  function StampedName(name: string, timestamp: nat): string
  {
    StemName(name) + "_" + Decimal(timestamp) + BareExtName(name)
  }

  /** `path.join(dir, name)` without Node's normalisation of `.` and `..` segments. */
  function Join(dir: string, name: string): string
  {
    dir + "/" + name
  }

  // ---------------------------------------------------------------------------------------
  // Properties

  /** The extension is empty or a proper suffix of the name that starts with its last dot. */
  lemma BareExtNameShape(name: string)
    ensures var e := BareExtName(name);
      && (e != "" ==> e[0] == '.' && e == name[|name| - |e|..] && 0 < |name| - |e|)
      && (e != "" ==> forall k :: 1 <= k < |e| ==> e[k] != '.')
  {
  }

  /** The stem and the extension put back together give the name. */
  lemma StemAndExtension(name: string)
    ensures StemName(name) + BareExtName(name) == name
  {
    BareExtNameShape(name);
  }

  /** Whatever the name, the collision name is strictly longer, so it differs from it. */
  lemma StampedNameIsNew(name: string, timestamp: nat)
    ensures |StampedName(name, timestamp)| == |name| + 1 + |Decimal(timestamp)|
    ensures StampedName(name, timestamp) != name
  {
    StemAndExtension(name);
  }

  /** The collision name of a name without separators has none either. */
  lemma StampedNameHasNoSlash(name: string, timestamp: nat)
    requires '/' !in name
    ensures '/' !in StampedName(name, timestamp)
  {
    var stem := StemName(name);
    var digits := Decimal(timestamp);
    var e := BareExtName(name);
    var s := StampedName(name, timestamp);
    StemAndExtension(name);
    assert s == stem + "_" + digits + e;
    assert stem + e == name;
    forall k | 0 <= k < |s| ensures s[k] != '/' {
      if k < |stem| {
        assert s[k] == stem[k] == name[k];
      } else if k == |stem| {
        assert s[k] == '_';
      } else if k < |stem| + 1 + |digits| {
        assert s[k] == digits[k - |stem| - 1];
      } else {
        var j := k - |stem| - 1 - |digits|;
        assert s[k] == e[j] == name[|stem| + j];
      }
    }
  }

  /**
   * The collision name keeps the extension of the original and is strictly longer than it,
   * so it never names the file that is already there.
   */
  lemma {:induction false} StampedNameKeepsExtension(name: string, timestamp: nat)
    requires '/' !in name
    requires name != ".."
    ensures BareExtName(StampedName(name, timestamp)) == BareExtName(name)
    ensures '/' !in StampedName(name, timestamp)
    ensures |StampedName(name, timestamp)| > |name|
    ensures StampedName(name, timestamp) != name
  {
    var e := BareExtName(name);
    var stem := StemName(name);
    var digits := Decimal(timestamp);
    var s := StampedName(name, timestamp);
    BareExtNameShape(name);
    StemAndExtension(name);
    assert s == stem + "_" + digits + e;
    assert |s| == |name| + 1 + |digits|;
    var d := LastIndexOf(name, '.');
    if e == "" {
      // No dot after position 0 in the name, and the appended part has no dot either.
      assert d <= 0;
      assert stem == name;
      forall k | 0 < k < |s| ensures s[k] != '.' {
        if k < |name| {
          assert s[k] == name[k];
        } else if k == |name| {
          assert s[k] == '_';
        } else {
          assert s[k] == digits[k - |name| - 1];
        }
      }
      var ds := LastIndexOf(s, '.');
      assert ds <= 0;
    } else {
      var at := |stem| + 1 + |digits|;
      assert s[at..] == e;
      assert s[at] == '.';
      forall k | at < k < |s| ensures s[k] != '.' {
        assert s[k] == e[k - at];
      }
      var ds := LastIndexOf(s, '.');
      assert ds == at;
      assert s != "..";
    }
    StampedNameHasNoSlash(name, timestamp);
  }

  // ---------------------------------------------------------------------------------------
  // Case-insensitivity of the image test

  lemma LowerAsciiSlice(s: string, i: nat, j: nat)
    requires i <= j <= |s|
    ensures LowerAscii(s)[i..j] == LowerAscii(s[i..j])
  {
  }

  /** Folding case moves no `.` and no `/`. */
  lemma {:induction false} LastIndexOfLower(s: string, c: char)
    requires c == '.' || c == '/'
    ensures LastIndexOf(LowerAscii(s), c) == LastIndexOf(s, c)
  {
    if |s| > 0 {
      LowerAsciiSlice(s, 0, |s| - 1);
      LastIndexOfLower(s[..|s| - 1], c);
    }
  }

  lemma {:induction false} TrimTrailingSlashesLower(p: string)
    ensures TrimTrailingSlashes(LowerAscii(p)) == LowerAscii(TrimTrailingSlashes(p))
  {
    if |p| > 0 {
      LowerAsciiSlice(p, 0, |p| - 1);
      TrimTrailingSlashesLower(p[..|p| - 1]);
    }
  }

  lemma BaseNameLower(p: string)
    ensures BaseName(LowerAscii(p)) == LowerAscii(BaseName(p))
  {
    var t := TrimTrailingSlashes(p);
    TrimTrailingSlashesLower(p);
    LastIndexOfLower(t, '/');
    LowerAsciiSlice(t, LastIndexOf(t, '/') + 1, |t|);
  }

  lemma BareExtNameLower(b: string)
    ensures BareExtName(LowerAscii(b)) == LowerAscii(BareExtName(b))
  {
    LastIndexOfLower(b, '.');
    assert LowerAscii(b) == ".." <==> b == ".." by {
      if LowerAscii(b) == ".." {
        assert |b| == 2;
        assert LowerAscii(b)[0] == LowerChar(b[0]) && LowerAscii(b)[1] == LowerChar(b[1]);
        assert b[0] == '.' && b[1] == '.';
      }
    }
    var d := LastIndexOf(b, '.');
    if 0 < d && b != ".." {
      LowerAsciiSlice(b, d, |b|);
    }
  }

  /** Taking the extension and folding case can be done in either order. */
  lemma ExtNameLower(p: string)
    ensures ExtName(LowerAscii(p)) == LowerAscii(ExtName(p))
  {
    BaseNameLower(p);
    BareExtNameLower(BaseName(p));
  }

  /** The image test ignores the case of ASCII letters anywhere in the path. */
  lemma IsImagePathIgnoresCase(p: string, q: string)
    requires LowerAscii(p) == LowerAscii(q)
    ensures IsImagePath(p) <==> IsImagePath(q)
  {
    ExtNameLower(p);
    ExtNameLower(q);
  }
}
