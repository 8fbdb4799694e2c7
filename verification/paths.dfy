/**
 The POSIX path rules the extractor relies on: `os.path.basename`,
 `os.path.splitext` and two-argument `os.path.join`, with `/` as the only
 separator and `.` as the extension separator.
 */
module Paths {

  const Sep: char := '/'
  const ExtSep: char := '.'

  /** `s.rfind(c)`: the index of the last `c` in `s`, or -1 when there is none. */
  function LastIndexOf(s: string, c: char): (r: int)
    ensures -1 <= r < |s|
    ensures r >= 0 ==> s[r] == c
    ensures forall i | r < i < |s| :: s[i] != c
  {
    if s == [] then -1
    else if s[|s| - 1] == c then |s| - 1
    else LastIndexOf(s[..|s| - 1], c)
  }

  /** `os.path.basename(p)`: the longest suffix of `p` that holds no separator. */
  function Basename(p: string): (r: string)
    ensures Sep !in r
    ensures |r| <= |p| && r == p[|p| - |r|..]
    ensures |r| == |p| || p[|p| - |r| - 1] == Sep
  {
    var i := LastIndexOf(p, Sep);
    assert |p[i + 1..]| == |p| - i - 1;
    p[i + 1..]
  }

  predicate AllDots(s: string) {
    forall i | 0 <= i < |s| :: s[i] == ExtSep
  }

  /**
   Where the extension of `p` starts, stated without reference to how it is
   found: `k` is a dot after which the last path component holds no other dot,
   and before which that same component holds a character other than a dot
   (so leading dots, as in `.bashrc`, never start an extension).
   */
  ghost predicate ExtensionStartsAt(p: string, k: int) {
    && 0 <= k < |p|
    && p[k] == ExtSep
    && (forall i | k < i < |p| :: p[i] != ExtSep && p[i] != Sep)
    && (exists j | 0 <= j < k :: p[j] != ExtSep && forall i | j <= i < k :: p[i] != Sep)
  }

  /**
   `os.path.splitext(p)`: `(root, ext)` where `ext` runs from the last dot of
   the last component to the end, unless everything before that dot in the
   component is dots; then `ext` is empty and `root` is all of `p`.
   */
  function SplitExt(p: string): (string, string) {
    var sepIndex := LastIndexOf(p, Sep);
    var dotIndex := LastIndexOf(p, ExtSep);
    if dotIndex > sepIndex && !AllDots(p[sepIndex + 1..dotIndex]) then (p[..dotIndex], p[dotIndex..])
    else (p, [])
  }

  /**
   The split puts `p` back together, and the extension it cuts off is
   non-empty exactly when some position starts an extension, in which case it
   starts there.
   */
  lemma SplitExtSpec(p: string)
    ensures SplitExt(p).0 + SplitExt(p).1 == p
    ensures SplitExt(p).1 != [] ==> ExtensionStartsAt(p, |SplitExt(p).0|)
    ensures SplitExt(p).1 == [] ==> forall k :: !ExtensionStartsAt(p, k)
  {
    var sepIndex := LastIndexOf(p, Sep);
    var dotIndex := LastIndexOf(p, ExtSep);
    if dotIndex > sepIndex && !AllDots(p[sepIndex + 1..dotIndex]) {
      ExtensionFound(p, sepIndex, dotIndex);
    } else {
      ExtensionForcesSplit(p);
    }
  }

  /** Wherever an extension starts, the split cuts exactly there. */
  lemma SplitExtAt(p: string, k: int)
    requires ExtensionStartsAt(p, k)
    ensures SplitExt(p) == (p[..k], p[k..])
  {
    ExtensionForcesSplit(p);
  }

  /** The dot the split picks does start an extension. */
  lemma ExtensionFound(p: string, sepIndex: int, dotIndex: int)
    requires sepIndex == LastIndexOf(p, Sep) && dotIndex == LastIndexOf(p, ExtSep)
    requires dotIndex > sepIndex && !AllDots(p[sepIndex + 1..dotIndex])
    ensures ExtensionStartsAt(p, dotIndex)
    ensures p[..dotIndex] + p[dotIndex..] == p
  {
    var mid := p[sepIndex + 1..dotIndex];
    var m :| 0 <= m < |mid| && mid[m] != ExtSep;
    var j := sepIndex + 1 + m;
    assert p[j] == mid[m];
    assert forall i | j <= i < dotIndex :: p[i] != Sep;
  }

  /** Any position that starts an extension is the one the split looks at, and it passes the test. */
  lemma ExtensionForcesSplit(p: string)
    ensures forall k | ExtensionStartsAt(p, k) ::
      && LastIndexOf(p, ExtSep) == k
      && LastIndexOf(p, Sep) < k
      && !AllDots(p[LastIndexOf(p, Sep) + 1..k])
  {
    forall k | ExtensionStartsAt(p, k)
      ensures LastIndexOf(p, ExtSep) == k
      ensures LastIndexOf(p, Sep) < k
      ensures !AllDots(p[LastIndexOf(p, Sep) + 1..k])
    {
      var j :| 0 <= j < k && p[j] != ExtSep && forall i | j <= i < k :: p[i] != Sep;
      var s := LastIndexOf(p, Sep);
      assert s < j;
      assert p[s + 1..k][j - s - 1] == p[j];
    }
  }

  /** Basename characterised: a separator-free suffix that is all of `p` or follows a separator is the base name. */
  lemma BasenameUnique(p: string, s: string)
    requires Sep !in s && |s| <= |p| && s == p[|p| - |s|..]
    requires |s| == |p| || p[|p| - |s| - 1] == Sep
    ensures Basename(p) == s
  {
  }

  predicate IsAbsolute(p: string) {
    |p| > 0 && p[0] == Sep
  }

  predicate EndsWith(s: string, suffix: string) {
    |suffix| <= |s| && s[|s| - |suffix|..] == suffix
  }

  /** Two-argument `os.path.join(a, b)`. */
  function Join(a: string, b: string): string {
    if IsAbsolute(b) then b
    else if a == [] || a[|a| - 1] == Sep then a + b
    else a + [Sep] + b
  }

  /**
   An absolute `b` replaces `a`. Otherwise the result is `a` followed by `b`,
   with a separator directly before `b` whenever `a` is non-empty, inserted
   only when `a` does not already end in one.
   */
  lemma JoinSpec(a: string, b: string)
    ensures IsAbsolute(b) ==> Join(a, b) == b
    ensures EndsWith(Join(a, b), b)
    ensures !IsAbsolute(b) ==>
      && |a| <= |Join(a, b)| && Join(a, b)[..|a|] == a
      && |Join(a, b)| == |a| + |b| + (if a == [] || a[|a| - 1] == Sep then 0 else 1)
      && (a != [] ==> Join(a, b)[|Join(a, b)| - |b| - 1] == Sep)
  {
    var r := Join(a, b);
    if !IsAbsolute(b) && a != [] {
      if a[|a| - 1] == Sep {
        assert r[|r| - |b| - 1] == a[|a| - 1];
      } else {
        assert r[|r| - |b| - 1] == r[|a|];
      }
    }
  }

  /** Joining onto a directory never changes the base name: `basename(join(a, b)) == basename(b)`. */
  lemma BasenameOfJoin(a: string, b: string)
    ensures Basename(Join(a, b)) == Basename(b)
  {
    JoinSpec(a, b);
    BasenameOfChildPath(Join(a, b), b);
  }

  /** A path that ends in `b`, either exactly or right after a separator, has the base name of `b`. */
  lemma BasenameOfChildPath(r: string, b: string)
    requires EndsWith(r, b) && (|r| == |b| || r[|r| - |b| - 1] == Sep)
    ensures Basename(r) == Basename(b)
  {
    var s := Basename(b);
    SuffixOfSuffix(r, b, s);
    if |s| < |b| {
      assert r[|r| - |s| - 1] == r[|r| - |b|..][|b| - |s| - 1];
    }
    BasenameUnique(r, s);
  }

  /** A suffix of a suffix is a suffix. */
  lemma SuffixOfSuffix(r: string, b: string, s: string)
    requires EndsWith(r, b) && EndsWith(b, s)
    ensures EndsWith(r, s)
  {
    assert r[|r| - |s|..] == s by {
      forall i | 0 <= i < |s|
        ensures r[|r| - |s| + i] == s[i]
      {
        assert s[i] == b[|b| - |s| + i];
        assert r[|r| - |s| + i] == r[|r| - |b|..][|b| - |s| + i];
      }
    }
  }
}
