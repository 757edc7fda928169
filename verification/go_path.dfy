/**
 * Go's `path.Base` for slash-separated paths, which the OSD bridge mount uses
 * to derive a sub-path from a mount path.
 *
 * `Base` follows the library's steps: an empty path gives ".", trailing
 * slashes are stripped, the text after the last remaining slash is kept, and
 * a path of slashes only gives "/". `IsBase` states independently what the
 * last element of a path is, and `BaseCharacterized` proves the two agree.
 */
module GoPath {

  /** No character of `s` is a slash. */
  predicate NoSlash(s: string) {
    forall k :: 0 <= k < |s| ==> s[k] != '/'
  }

  /** Every character of `s` is a slash (true of the empty string). */
  predicate AllSlashes(s: string) {
    forall k :: 0 <= k < |s| ==> s[k] == '/'
  }

  /** `p` with its trailing slashes stripped. */
  function TrimTrailingSlashes(p: string): (r: string)
    ensures |r| <= |p| && r == p[..|r|]
    ensures AllSlashes(p[|r|..])
    ensures r == [] || r[|r| - 1] != '/'
    decreases |p|
  {
    if |p| > 0 && p[|p| - 1] == '/' then
      var r := TrimTrailingSlashes(p[..|p| - 1]);
      assert p[|r|..] == p[..|p| - 1][|r|..] + ['/'];
      r
    else
      p
  }

  /** Go's `strings.LastIndex(p, "/")`: the index of the last slash of `p`, or -1. */
  function LastSlash(p: string): (i: int)
    ensures -1 <= i < |p|
    ensures 0 <= i ==> p[i] == '/'
    ensures forall k :: i < k < |p| ==> p[k] != '/'
    decreases |p|
  {
    if p == [] then -1
    else if p[|p| - 1] == '/' then |p| - 1
    else LastSlash(p[..|p| - 1])
  }

  /** Go's `path.Base`: the last element of `p`. */
  function Base(p: string): (b: string)
    ensures b != []
  {
    if p == [] then
      "."
    else
      var t := TrimTrailingSlashes(p);
      var last := t[LastSlash(t) + 1..];
      if last == [] then "/" else last
  }

  /**
   * `p[i..j]` is the last element of `p`: a non-empty run of non-slash
   * characters that starts the path or follows a slash, and after which the
   * path holds only slashes.
   */
  predicate LastElementAt(p: string, i: int, j: int) {
    && 0 <= i < j <= |p|
    && NoSlash(p[i..j])
    && (i == 0 || p[i - 1] == '/')
    && AllSlashes(p[j..])
  }

  /** `b` is the base of `p`, stated without reference to how it is computed. */
  ghost predicate IsBase(p: string, b: string) {
    || (p == [] && b == ".")
    || (p != [] && AllSlashes(p) && b == "/")
    || (exists i, j :: LastElementAt(p, i, j) && b == p[i..j])
  }

  /** `LastElementAt` read character by character. */
  lemma LastElementChars(p: string, i: int, j: int)
    requires LastElementAt(p, i, j)
    ensures forall k :: i <= k < j ==> p[k] != '/'
    ensures forall k :: j <= k < |p| ==> p[k] == '/'
  {
    forall k | i <= k < j ensures p[k] != '/' {
      assert p[i..j][k - i] == p[k];
    }
    forall k | j <= k < |p| ensures p[k] == '/' {
      assert p[j..][k - j] == p[k];
    }
  }

  /** A path has at most one last element. */
  lemma LastElementUnique(p: string, i1: int, j1: int, i2: int, j2: int)
    requires LastElementAt(p, i1, j1) && LastElementAt(p, i2, j2)
    ensures i1 == i2 && j1 == j2
  {
    LastElementChars(p, i1, j1);
    LastElementChars(p, i2, j2);
    assert p[j1 - 1] != '/' && p[j2 - 1] != '/';
    assert j1 == j2;
    assert i1 > 0 ==> p[i1 - 1] == '/';
    assert i2 > 0 ==> p[i2 - 1] == '/';
  }

  /** A path of slashes only has no last element. */
  lemma NoLastElementInSlashes(p: string, i: int, j: int)
    requires AllSlashes(p)
    ensures !LastElementAt(p, i, j)
  {
    if 0 <= i < j <= |p| {
      assert p[i..j][j - 1 - i] == p[j - 1];
    }
  }

  /** `IsBase` determines its second argument. */
  lemma IsBaseUnique(p: string, b1: string, b2: string)
    requires IsBase(p, b1) && IsBase(p, b2)
    ensures b1 == b2
  {
    if p != [] && AllSlashes(p) {
      forall i, j ensures !LastElementAt(p, i, j) {
        NoLastElementInSlashes(p, i, j);
      }
    } else if p != [] {
      var i1, j1 :| LastElementAt(p, i1, j1) && b1 == p[i1..j1];
      var i2, j2 :| LastElementAt(p, i2, j2) && b2 == p[i2..j2];
      LastElementUnique(p, i1, j1, i2, j2);
    }
  }

  /** `Base` computes a base in the sense of `IsBase`. */
  lemma BaseIsBase(p: string)
    ensures IsBase(p, Base(p))
  {
    if p != [] {
      var t := TrimTrailingSlashes(p);
      var i := LastSlash(t);
      if i + 1 == |t| {
        assert t == [];
        assert AllSlashes(p[0..]);
        assert p[0..] == p;
      } else {
        assert p[i + 1..|t|] == t[i + 1..];
        assert 0 <= i ==> p[i] == t[i];
        assert LastElementAt(p, i + 1, |t|);
      }
    }
  }

  /** `Base` is exactly the base of a path: both directions. */
  lemma BaseCharacterized(p: string, b: string)
    ensures IsBase(p, b) <==> b == Base(p)
  {
    BaseIsBase(p);
    if IsBase(p, b) {
      IsBaseUnique(p, b, Base(p));
    }
  }

  /** Appending a slash keeps the last element where it was. */
  lemma LastElementAfterSlash(p: string, i: int, j: int)
    requires LastElementAt(p, i, j)
    ensures LastElementAt(p + "/", i, j) && (p + "/")[i..j] == p[i..j]
  {
    var q := p + "/";
    assert q[i..j] == p[i..j];
    assert q[j..] == p[j..] + "/";
  }

  /** A trailing slash does not change the base of a non-empty path. */
  lemma BaseIgnoresTrailingSlash(p: string)
    requires p != []
    ensures Base(p + "/") == Base(p)
  {
    var q := p + "/";
    var b := Base(p);
    BaseIsBase(p);
    if AllSlashes(p) {
      assert AllSlashes(q);
      assert IsBase(q, b);
    } else {
      var i, j :| LastElementAt(p, i, j) && b == p[i..j];
      LastElementAfterSlash(p, i, j);
      assert IsBase(q, b);
    }
    BaseCharacterized(q, b);
  }

  /** The base of `dir/name` is `name` when `name` is a single element. */
  lemma BaseOfJoin(dir: string, name: string)
    requires name != [] && NoSlash(name)
    ensures Base(dir + "/" + name) == name
  {
    var q := dir + "/" + name;
    var i, j := |dir| + 1, |q|;
    assert q[i..j] == name;
    assert q[j..] == [];
    assert LastElementAt(q, i, j);
    BaseCharacterized(q, name);
  }

  /** Taking the base twice gives the same element. */
  lemma BaseIdempotent(p: string)
    ensures Base(Base(p)) == Base(p)
  {
    var b := Base(p);
    BaseIsBase(p);
    if p == [] {
      assert LastElementAt(b, 0, 1);
      assert b[0..1] == b;
    } else if AllSlashes(p) {
      assert AllSlashes(b);
    } else {
      var i, j :| LastElementAt(p, i, j) && b == p[i..j];
      assert b[0..|b|] == b && b[|b|..] == [];
      assert LastElementAt(b, 0, |b|);
    }
    BaseCharacterized(b, b);
  }
}
