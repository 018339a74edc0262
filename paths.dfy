/**
 * Path helpers of the texture taker: joining two path parts with a forward
 * slash, finding the last slash of either kind, and taking the part of a path
 * after its last slash (the folder name that becomes the material name, and
 * the file name a texture is copied under).
 */
module Paths {

  const FSlash: char := '/'
  const BSlash: char := '\\'

  predicate IsSlash(c: char) {
    c == FSlash || c == BSlash
  }

  /** Integer maximum, as the engine's Max on two ints. */
  function Max(i: int, j: int): (m: int)
    ensures m >= i && m >= j
    ensures m == i || m == j
  {
    if i >= j then i else j
  }

  /**
   * The ordinal search for the last `c` among the first `n` characters of
   * `s`, scanning down from index `n - 1`; -1 when there is none.
   */
  function LastIndexBefore(s: string, c: char, n: int): (r: int)
    requires 0 <= n <= |s|
    ensures -1 <= r < n
    decreases n
  {
    if n == 0 then -1
    else if s[n - 1] == c then n - 1
    else LastIndexBefore(s, c, n - 1)
  }

  /** The index of the last `c` in `s`, or -1 when `c` does not occur (LastIndexOfSpec). */
  function LastIndexOf(s: string, c: char): (r: int)
    ensures -1 <= r < |s|
  {
    LastIndexBefore(s, c, |s|)
  }

  lemma {:induction false} LastIndexBeforeSpec(s: string, c: char, n: int)
    requires 0 <= n <= |s|
    ensures var r := LastIndexBefore(s, c, n);
            && (r >= 0 ==> s[r] == c)
            && forall k :: r < k < n ==> s[k] != c
    decreases n
  {
    if n > 0 && s[n - 1] != c {
      LastIndexBeforeSpec(s, c, n - 1);
    }
  }

  /** The search finds `c` at `r`, and no `c` after it. */
  lemma LastIndexOfSpec(s: string, c: char)
    ensures var r := LastIndexOf(s, c);
            && (r >= 0 ==> s[r] == c)
            && forall k :: r < k < |s| ==> s[k] != c
  {
    LastIndexBeforeSpec(s, c, |s|);
  }

  /** Those two facts determine the result: any index that has them is the one found. */
  lemma LastIndexOfUnique(s: string, c: char, r: int)
    requires -1 <= r < |s|
    requires r >= 0 ==> s[r] == c
    requires forall k :: r < k < |s| ==> s[k] != c
    ensures LastIndexOf(s, c) == r
  {
    LastIndexOfSpec(s, c);
  }

  /** -1 exactly when the character is absent. */
  lemma LastIndexOfAbsent(s: string, c: char)
    ensures LastIndexOf(s, c) == -1 <==> c !in s
  {
    LastIndexOfSpec(s, c);
  }

  /**
   * The last occurrence in a concatenation is in the second part when that
   * part holds the character, and otherwise it is the last one in the first.
   */
  lemma LastIndexOfAppend(x: string, y: string, c: char)
    ensures LastIndexOf(x + y, c) == if c in y then |x| + LastIndexOf(y, c) else LastIndexOf(x, c)
  {
    var xy := x + y;
    assert forall k :: 0 <= k < |y| ==> xy[|x| + k] == y[k];
    if c in y {
      LastIndexOfSpec(y, c);
      LastIndexOfAbsent(y, c);
      var r := |x| + LastIndexOf(y, c);
      forall k | r < k < |xy| ensures xy[k] != c {
        assert xy[k] == y[k - |x|];
      }
      LastIndexOfUnique(xy, c, r);
    } else {
      LastIndexOfSpec(x, c);
      var r := LastIndexOf(x, c);
      forall k | r < k < |xy| ensures xy[k] != c {
        if k >= |x| {
          assert xy[k] == y[k - |x|];
        }
      }
      LastIndexOfUnique(xy, c, r);
    }
  }

  /**
   * Two strings that have the searched character at exactly the same
   * positions have the same last occurrence.
   */
  lemma LastIndexOfSamePositions(s: string, c: char, t: string, d: char)
    requires |s| == |t|
    requires forall k :: 0 <= k < |s| ==> (s[k] == c <==> t[k] == d)
    ensures LastIndexOf(s, c) == LastIndexOf(t, d)
  {
    LastIndexOfSpec(s, c);
    LastIndexOfUnique(t, d, LastIndexOf(s, c));
  }

  /** Joins two path parts with a forward slash ("a/b"). */
  function AddPath(a: string, b: string): (r: string)
    ensures |r| == |a| + |b| + 1
  {
    a + [FSlash] + b
  }

  /**
   * A joined path starts with its first part, has the slash right after it,
   * and ends with its second part.
   */
  lemma AddPathShape(a: string, b: string)
    ensures var r := AddPath(a, b);
            && |r| == |a| + |b| + 1
            && r[..|a|] == a && r[|a|] == FSlash && r[|a| + 1..] == b
  {
  }

  /** Index of the last forward or back slash, or -1 (LastSlashSpec). */
  function LastSlash(a: string): (r: int)
    ensures -1 <= r < |a|
  {
    Max(LastIndexOf(a, FSlash), LastIndexOf(a, BSlash))
  }

  /**
   * The index found is a slash and no slash of either kind follows it; it
   * is -1 exactly when the path has no slash.
   */
  lemma LastSlashSpec(a: string)
    ensures var r := LastSlash(a);
            && (r >= 0 ==> IsSlash(a[r]))
            && (forall k :: r < k < |a| ==> !IsSlash(a[k]))
            && (r == -1 <==> forall k :: 0 <= k < |a| ==> !IsSlash(a[k]))
  {
    LastIndexOfSpec(a, FSlash);
    LastIndexOfSpec(a, BSlash);
  }

  /** The part of a path after its last slash; the whole path when it has none. */
  function BaseName(a: string): (r: string)
    ensures |r| <= |a|
  {
    a[LastSlash(a) + 1..]
  }

  /**
   * The base name is the longest slash-free tail of the path: the path is
   * some prefix followed by it, that prefix is empty or ends in a slash, and
   * a path without slashes is its own base name.
   */
  lemma BaseNameShape(a: string)
    ensures var r := BaseName(a);
            && |r| <= |a| && a == a[..|a| - |r|] + r
            && (forall k :: 0 <= k < |r| ==> !IsSlash(r[k]))
            && (|r| < |a| ==> IsSlash(a[|a| - |r| - 1]))
            && ((forall k :: 0 <= k < |a| ==> !IsSlash(a[k])) ==> r == a)
  {
    LastSlashSpec(a);
    var i := LastSlash(a) + 1;
    var r := a[i..];
    assert BaseName(a) == r;
    assert |a| - |r| == i;
    assert a == a[..i] + r;
    forall k | 0 <= k < |r| ensures !IsSlash(r[k]) {
      assert r[k] == a[i + k];
    }
  }

  /** The base name of a joined path is its second part, when that has no slash. */
  lemma BaseNameOfAddPath(a: string, b: string)
    requires forall k :: 0 <= k < |b| ==> !IsSlash(b[k])
    ensures BaseName(AddPath(a, b)) == b
  {
    var p := AddPath(a, b);
    assert p == (a + [FSlash]) + b;
    assert FSlash !in b && BSlash !in b by {
      forall k | 0 <= k < |b| ensures b[k] != FSlash && b[k] != BSlash {
        assert !IsSlash(b[k]);
      }
    }
    LastIndexOfAppend(a + [FSlash], b, FSlash);
    LastIndexOfAppend(a, [FSlash], FSlash);
    LastIndexOfAppend(a + [FSlash], b, BSlash);
    LastIndexOfAppend(a, [FSlash], BSlash);
  }
}
