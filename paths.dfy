/** The POSIX flavour of Python's `os.path` functions that the meeting
    assistant uses to name its files: `basename`, `splitext` and `join`. */
module Paths {

  const Sep: char := '/'
  const ExtSep: char := '.'

  /** `s.rfind(c)`: the index of the last `c` in `s`, or -1 when there is none. */
  function RFind(s: string, c: char): (r: int)
    ensures -1 <= r < |s|
    ensures r >= 0 ==> s[r] == c
    ensures forall j :: r < j < |s| ==> s[j] != c
  {
    if s == [] then -1
    else if s[|s| - 1] == c then |s| - 1
    else RFind(s[..|s| - 1], c)
  }

  /** `os.path.basename(p)`: everything after the last separator. */
  function Basename(p: string): string {
    p[RFind(p, Sep) + 1..]
  }

  /** Some character of `s` is not a dot. */
  predicate HasNonDot(s: string) {
    exists i :: 0 <= i < |s| && s[i] != ExtSep
  }

  /** `os.path.splitext(p)`: the last dot of the final component starts the
      extension, unless everything before it in that component is a dot too
      (so `.bashrc` has no extension); without a split the extension is empty. */
  function SplitExt(p: string): (string, string) {
    var sep := RFind(p, Sep);
    var dot := RFind(p, ExtSep);
    if dot > sep && SkipDots(p, sep + 1, dot) < dot then (p[..dot], p[dot..]) else (p, [])
  }

  /** The scan `splitext` makes over the final component: the first index
      from `i` on, below `hi`, that does not hold a dot, or `hi`. */
  function SkipDots(s: string, i: nat, hi: nat): (r: nat)
    requires i <= hi <= |s|
    ensures i <= r <= hi
    ensures forall k :: i <= k < r ==> s[k] == ExtSep
    ensures r < hi ==> s[r] != ExtSep
    decreases hi - i
  {
    if i < hi && s[i] == ExtSep then SkipDots(s, i + 1, hi) else i
  }

  /** The scan stops early exactly when the range holds a character other
      than a dot. */
  lemma {:induction false} SkipDotsFindsNonDot(s: string, i: nat, hi: nat)
    requires i <= hi <= |s|
    ensures SkipDots(s, i, hi) < hi <==> HasNonDot(s[i..hi])
  {
    var r := SkipDots(s, i, hi);
    if r < hi {
      assert s[i..hi][r - i] == s[r];
    }
    if HasNonDot(s[i..hi]) {
      var k :| 0 <= k < |s[i..hi]| && s[i..hi][k] != ExtSep;
      assert s[i + k] == s[i..hi][k];
      assert r <= i + k;
    }
  }

  /** The root `splitext` keeps: the file name without its last extension. */
  function Stem(p: string): string {
    SplitExt(Basename(p)).0
  }

  /** `os.path.join(a, b)` for two components: an absolute `b` discards `a`,
      and a separator is put between them unless `a` is empty or already
      ends with one. */
  function Join(a: string, b: string): string {
    if |b| > 0 && b[0] == Sep then b
    else if a == [] || a[|a| - 1] == Sep then a + b
    else a + [Sep] + b
  }

  /** The last index of a character is determined by any index holding it
      with none after. */
  lemma {:induction false} RFindAt(s: string, c: char, k: int)
    requires 0 <= k < |s| && s[k] == c
    requires forall j :: k < j < |s| ==> s[j] != c
    ensures RFind(s, c) == k
  {
  }

  lemma {:induction false} RFindAbsent(s: string, c: char)
    requires c !in s
    ensures RFind(s, c) == -1
  {
  }

  /** The base name is the longest suffix of `p` without a separator. */
  lemma {:induction false} BasenameIsFinalComponent(p: string)
    ensures var r := Basename(p);
      && Sep !in r
      && |r| <= |p| && r == p[|p| - |r|..]
      && (|r| < |p| ==> p[|p| - |r| - 1] == Sep)
  {
  }

  /** The last occurrence lies within any prefix that reaches past it. */
  lemma {:induction false} RFindPrefix(s: string, c: char, n: int)
    requires RFind(s, c) < n <= |s|
    ensures RFind(s[..n], c) == RFind(s, c)
  {
    var r := RFind(s, c);
    if r >= 0 {
      RFindAt(s[..n], c, r);
    } else {
      assert c !in s[..n];
      RFindAbsent(s[..n], c);
    }
  }

  /** What follows the last dot, when that dot comes after the last
      separator, is a single extension. */
  lemma {:induction false} AfterLastDot(p: string, sep: int, dot: int)
    requires sep == RFind(p, Sep) && dot == RFind(p, ExtSep) && dot > sep
    ensures var ext := p[dot..];
      ext[0] == ExtSep && ExtSep !in ext[1..] && Sep !in ext
  {
    var ext := p[dot..];
    forall i | 0 <= i < |ext[1..]| ensures ext[1..][i] != ExtSep {
      assert ext[1..][i] == p[dot + 1 + i];
    }
    forall i | 0 <= i < |ext| ensures ext[i] != Sep {
      assert ext[i] == p[dot + i];
    }
  }

  /** `splitext` cuts `p` in two without losing characters, and what it cuts
      off is a single extension: one dot, followed by neither dots nor
      separators, after a final-component root that is not all dots. */
  lemma {:induction false} SplitExtParts(p: string)
    ensures SplitExt(p).0 + SplitExt(p).1 == p
    ensures var ext := SplitExt(p).1;
      ext == [] || (ext[0] == ExtSep && ExtSep !in ext[1..] && Sep !in ext)
    ensures SplitExt(p).1 != [] ==> HasNonDot(Basename(SplitExt(p).0))
  {
    var sep := RFind(p, Sep);
    var dot := RFind(p, ExtSep);
    if dot > sep && SkipDots(p, sep + 1, dot) < dot {
      var root, ext := p[..dot], p[dot..];
      assert SplitExt(p) == (root, ext);
      assert root + ext == p;
      AfterLastDot(p, sep, dot);
      assert HasNonDot(Basename(root)) by {
        RFindPrefix(p, Sep, dot);
        assert Basename(root) == p[sep + 1..dot];
        SkipDotsFindsNonDot(p, sep + 1, dot);
      }
    } else {
      assert SplitExt(p) == (p, []);
      assert p + [] == p;
    }
  }

  /** The stem is the final component of `p` with at most one extension
      taken off, so it holds no separator. */
  lemma {:induction false} StemParts(p: string)
    ensures Sep !in Stem(p)
    ensures var ext := SplitExt(Basename(p)).1;
      && Basename(p) == Stem(p) + ext
      && (ext == [] || (ext[0] == ExtSep && ExtSep !in ext[1..]))
  {
    var base := Basename(p);
    BasenameIsFinalComponent(p);
    SplitExtParts(base);
    var stem := Stem(p);
    forall i | 0 <= i < |stem| ensures stem[i] != Sep {
      assert stem[i] == base[i];
    }
  }

  /** For a name without separators, `splitext` splits off an extension
      exactly when some dot follows a character that is not a dot. */
  lemma {:induction false} SplitExtOfName(n: string)
    requires Sep !in n
    ensures SplitExt(n).1 != [] <==>
      exists i, j :: 0 <= i < j < |n| && n[i] != ExtSep && n[j] == ExtSep
  {
    RFindAbsent(n, Sep);
    var dot := RFind(n, ExtSep);
    if dot > -1 && SkipDots(n, 0, dot) < dot {
      var i := SkipDots(n, 0, dot);
      assert n[i] != ExtSep && n[dot] == ExtSep;
    }
    if exists i, j :: 0 <= i < j < |n| && n[i] != ExtSep && n[j] == ExtSep {
      var i, j :| 0 <= i < j < |n| && n[i] != ExtSep && n[j] == ExtSep;
      assert j <= dot;
      assert SkipDots(n, 0, dot) <= i;
    }
  }

  /** The converse direction used to name files: a name made of a root with a
      character other than a dot, followed by one dotted extension, is split
      back into exactly that root and extension. */
  lemma {:induction false} SplitExtOfRootAndExt(root: string, ext: string)
    requires Sep !in root && Sep !in ext
    requires |ext| > 0 && ext[0] == ExtSep && ExtSep !in ext[1..]
    requires HasNonDot(root)
    ensures SplitExt(root + ext) == (root, ext)
  {
    var p := root + ext;
    assert Sep !in p;
    RFindAbsent(p, Sep);
    forall j | |root| < j < |p|
      ensures p[j] != ExtSep
    {
      assert p[j] == ext[1..][j - |root| - 1];
    }
    RFindAt(p, ExtSep, |root|);
    assert p[0..|root|] == root;
    assert p[..|root|] == root && p[|root|..] == ext;
  }

  /** A relative component is joined below the directory, and the final
      component of the result is that of the joined name. */
  lemma {:induction false} JoinRelative(dir: string, name: string)
    requires dir != [] && dir[|dir| - 1] != Sep
    requires name == [] || name[0] != Sep
    ensures Join(dir, name) == dir + [Sep] + name
    ensures Sep !in name ==> Basename(Join(dir, name)) == name
  {
    if Sep !in name {
      var p := dir + [Sep] + name;
      RFindAt(p, Sep, |dir|);
      assert p[|dir| + 1..] == name;
    }
  }
}
