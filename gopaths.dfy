/**
 * The parts of Go's `path/filepath` and `strings` packages that the tool
 * uses to take file names apart: `filepath.Ext`, `strings.HasSuffix`,
 * `strings.TrimSuffix` and `filepath.Join`, on a platform whose only path
 * separator is '/'.
 */
module GoPaths {

  /** The path separator of the platform described here. */
  predicate IsPathSeparator(c: char) {
    c == '/'
  }

  /** strings.HasSuffix */
  predicate HasSuffix(s: string, suffix: string) {
    |suffix| <= |s| && s[|s| - |suffix|..] == suffix
  }

  /** strings.TrimSuffix: drops `suffix` once from the end of `s` if it is there. */
  function TrimSuffix(s: string, suffix: string): (r: string)
    ensures HasSuffix(s, suffix) ==> r + suffix == s
    ensures !HasSuffix(s, suffix) ==> r == s
  {
    if HasSuffix(s, suffix) then s[..|s| - |suffix|] else s
  }

  /** Every '.' of `p` is followed, later in `p`, by a separator: the last element has no dot. */
  predicate NoDotInLastElement(p: string) {
    forall k :: 0 <= k < |p| && p[k] == '.' ==>
      exists j :: k < j < |p| && IsPathSeparator(p[j])
  }

  /**
   * `e` is the extension of `p`: the suffix of `p` that starts at the last '.'
   * of the last path element, or "" when that element has no '.'.
   */
  predicate IsExtensionOf(e: string, p: string) {
    && HasSuffix(p, e)
    && (e != "" ==> e[0] == '.')
    && (forall k :: 0 <= k < |e| ==> !IsPathSeparator(e[k]))
    && (forall k :: 1 <= k < |e| ==> e[k] != '.')
    && (e == "" ==> NoDotInLastElement(p))
  }

  /** The backward scan of filepath.Ext: positions i.. have been looked at and hold no '.' or separator. */
  function ExtFrom(p: string, i: nat): (e: string)
    requires i <= |p|
    requires forall k :: i <= k < |p| ==> p[k] != '.' && !IsPathSeparator(p[k])
    ensures IsExtensionOf(e, p)
    decreases i
  {
    if i == 0 then ""
    else if IsPathSeparator(p[i - 1]) then
      assert forall k :: 0 <= k < |p| && p[k] == '.' ==> k < i - 1;
      ""
    else if p[i - 1] == '.' then p[i - 1..]
    else ExtFrom(p, i - 1)
  }

  /** filepath.Ext */
  function Ext(p: string): (e: string)
    ensures IsExtensionOf(e, p)
  {
    ExtFrom(p, |p|)
  }

  /** IsExtensionOf determines the extension: it is a definition of Ext independent of the scan. */
  lemma {:induction false} ExtUnique(e: string, p: string)
    requires IsExtensionOf(e, p)
    ensures e == Ext(p)
  {
  }

  /** The file name without its extension: strings.TrimSuffix(p, filepath.Ext(p)). */
  function Stem(p: string): (b: string)
    ensures b + Ext(p) == p
  {
    TrimSuffix(p, Ext(p))
  }

  /**
   * Text with no '.' and no separator inserted between the stem and the
   * extension leaves the extension alone and lengthens the stem by exactly
   * that text.
   */
  lemma {:induction false} ExtKeptUnderInfix(p: string, w: string)
    requires forall k :: 0 <= k < |w| ==> w[k] != '.' && !IsPathSeparator(w[k])
    ensures Ext(Stem(p) + w + Ext(p)) == Ext(p)
    ensures Stem(Stem(p) + w + Ext(p)) == Stem(p) + w
  {
    var e := Ext(p);
    var q := Stem(p) + w + e;
    if e == "" {
      assert Stem(p) == p;
      forall k | 0 <= k < |q| && q[k] == '.'
        ensures exists j :: k < j < |q| && IsPathSeparator(q[j])
      {
        assert p[k] == '.';
        var j :| k < j < |p| && IsPathSeparator(p[j]);
        assert q[j] == p[j];
      }
    }
    assert q[|q| - |e|..] == e;
    ExtUnique(e, q);
    assert Stem(q) + e == q;
  }

  /** A name that starts with '.' and has no further '.' and no separator is its own extension in any directory-free suffix position. */
  lemma {:induction false} ExtOfAppendedExtension(b: string, e: string)
    requires e != [] && e[0] == '.'
    requires forall k :: 0 <= k < |e| ==> !IsPathSeparator(e[k])
    requires forall k :: 1 <= k < |e| ==> e[k] != '.'
    ensures Ext(b + e) == e
    ensures Stem(b + e) == b
  {
    assert (b + e)[|b + e| - |e|..] == e;
    ExtUnique(e, b + e);
    assert Stem(b + e) + e == b + e;
  }

  /**
   * filepath.Join(dir, "bin", name) for a clean `dir` (as filepath.Dir and
   * os.Getwd return) and a `name` without separators. Join drops an empty
   * `dir` and cleans "." away, and puts exactly one separator after any
   * other directory.
   */
  function JoinBin(dir: string, name: string): (p: string)
    ensures HasSuffix(p, "bin/" + name)
    ensures dir == "" || dir == "." ==> p == "bin/" + name
    ensures dir != "." ==> |dir| <= |p| && p[..|dir|] == dir
    ensures dir != "" && dir != "." && !IsPathSeparator(dir[|dir| - 1]) ==> p == dir + "/bin/" + name
    ensures dir != "" && IsPathSeparator(dir[|dir| - 1]) ==> p == dir + "bin/" + name
  {
    if dir == "" || dir == "." then "bin/" + name
    else if IsPathSeparator(dir[|dir| - 1]) then dir + "bin/" + name
    else dir + "/bin/" + name
  }
}
