/** The `os.path` functions (POSIX flavour) the tagger uses on paths:
    `join`, `basename` and `splitext`. */
module PyPath {
  import opened PyStr

  /** Index of the last `c` in `s`, or -1 when there is none. */
  function LastIndexOf(s: string, c: char): (i: int)
    ensures -1 <= i < |s|
    ensures i >= 0 ==> s[i] == c
    ensures forall k :: i < k < |s| ==> s[k] != c
    decreases |s|
  {
    if |s| == 0 then -1
    else if s[|s| - 1] == c then |s| - 1
    else LastIndexOf(s[..|s| - 1], c)
  }

  /** The contract of `LastIndexOf` determines it: an occurrence of `c` with
      none after it is the last one. */
  lemma LastIndexOfUnique(s: string, c: char, j: int)
    requires 0 <= j < |s| && s[j] == c
    requires forall k :: j < k < |s| ==> s[k] != c
    ensures LastIndexOf(s, c) == j
  {
  }

  /** `posixpath.join(a, b)`. */
  function PathJoin(a: string, b: string): (r: string)
    ensures |b| > 0 && b[0] == '/' ==> r == b
  {
    if |b| > 0 && b[0] == '/' then b
    else if a == "" || a[|a| - 1] == '/' then a + b
    else a + "/" + b
  }

  /** `posixpath.basename(p)`: what follows the last `/`. */
  function Basename(p: string): (r: string)
    ensures '/' !in r
    ensures |r| <= |p| && r == p[|p| - |r|..]
    ensures |r| == |p| || p[|p| - |r| - 1] == '/'
  {
    p[LastIndexOf(p, '/') + 1..]
  }

  /** A relative name without `/` joined onto any directory is its own
      base name. */
  lemma BasenameOfJoin(root: string, file: string)
    requires file != "" && '/' !in file
    ensures Basename(PathJoin(root, file)) == file
  {
    var p := PathJoin(root, file);
    if root == "" {
      assert p == file;
      assert LastIndexOf(p, '/') == -1;
    } else {
      var j := if root[|root| - 1] == '/' then |root| - 1 else |root|;
      assert p == root[..j] + "/" + file by {
        if root[|root| - 1] == '/' {
          assert root == root[..j] + "/";
        } else {
          assert root[..j] == root;
        }
      }
      assert p[j] == '/';
      assert forall k :: j < k < |p| ==> p[k] == file[k - j - 1];
      LastIndexOfUnique(p, '/', j);
      assert p[j + 1..] == file;
    }
  }

  predicate AllDots(s: string)
  {
    forall k :: 0 <= k < |s| ==> s[k] == '.'
  }

  /** `posixpath.splitext(base)[0]` for a base name (no `/`): the part before
      the last `.`, unless only dots precede that `.` (a leading-dot name such
      as `.png` has no extension). */
  function Stem(base: string): (r: string)
    ensures |r| <= |base| && r == base[..|r|]
  {
    var d := LastIndexOf(base, '.');
    if d >= 0 && !AllDots(base[..d]) then base[..d] else base
  }

  /** A name `s.e` whose extension `e` has no dot and whose stem is not only
      dots loses exactly `.e`. */
  lemma StemOfDotted(s: string, e: string)
    requires '.' !in e
    requires !AllDots(s)
    ensures Stem(s + "." + e) == s
  {
    var b := s + "." + e;
    assert b[|s|] == '.';
    assert forall k :: |s| < k < |b| ==> b[k] == e[k - |s| - 1];
    LastIndexOfUnique(b, '.', |s|);
    assert b[..|s|] == s;
  }

  /** A name `s.e` whose part before the last dot is only dots (`.png`,
      `..jpg`) has no extension: its stem is the whole name. */
  lemma StemOfDotOnly(s: string, e: string)
    requires '.' !in e
    requires AllDots(s)
    ensures Stem(s + "." + e) == s + "." + e
  {
    var b := s + "." + e;
    assert b[|s|] == '.';
    assert forall k :: |s| < k < |b| ==> b[k] == e[k - |s| - 1];
    LastIndexOfUnique(b, '.', |s|);
    assert b[..|s|] == s;
  }

  /** A name without a dot is its own stem. */
  lemma StemNoDot(base: string)
    requires '.' !in base
    ensures Stem(base) == base
  {
  }
}
