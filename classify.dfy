/**
 * The two classifiers of an alpha-string and the "interesting" test built on
 * them.  Each classifier is a scan with an early exit; here it is a method
 * whose loop is proved against a predicate that says outright what it decides.
 */
module Classification {
  import opened AlphaStrings

  /** Entry `k` is not a marker and points into the window [i, i + n/2). */
  predicate PointsInto(a: seq<int>, i: int, k: int)
    requires 0 <= k < |a|
  {
    a[k] != InfAlpha && i <= a[k] < i + |a| / 2
  }

  /**
   * No entry of the window [i, i + n/2) points inside that window: the
   * arcs met there can all be eliminated in one pass.
   */
  predicate WindowFree(a: seq<int>, i: int)
    requires 0 <= i && i + |a| / 2 <= |a|
  {
    forall k :: i <= k < i + |a| / 2 ==> !PointsInto(a, i, k)
  }

  /**
   * The substring check: over j < n/2, no left entry `a[j]` points left of
   * n/2 and no right entry `a[n/2 + j]` points at or right of n/2 (markers
   * excepted).
   */
  predicate HalvesSeparated(a: seq<int>)
  {
    (forall j :: 0 <= j < |a| / 2 ==> a[j] == InfAlpha || a[j] >= |a| / 2) &&
    (forall j :: |a| / 2 <= j < |a| / 2 + |a| / 2 ==> a[j] == InfAlpha || a[j] < |a| / 2)
  }

  /** What `simple()` decides. */
  predicate IsSimple(s: AlphaString)
  {
    (exists i :: 0 <= i < |s.alphas| / 2 && WindowFree(s.alphas, i)) ||
    (s.isSubstring && HalvesSeparated(s.alphas))
  }

  /** What `with_simple_loops()` decides: some arc joins `i` to `i + 1`, for `i < n - 1`. */
  predicate HasSimpleLoop(s: AlphaString)
  {
    exists i :: 0 <= i < |s.alphas| - 1 && s.alphas[i] == i + 1
  }

  /** `simple()`: try every window, then, for a substring, the two halves. */
  method Simple(s: AlphaString) returns (r: bool)
    ensures r == IsSimple(s)
  {
    var a := s.alphas;
    var half := |a| / 2;
    var i := 0;
    while i < half
      invariant 0 <= i <= half
      invariant forall i' :: 0 <= i' < i ==> !WindowFree(a, i')
    {
      var j := 0;
      while j < half
        invariant 0 <= j <= half
        invariant forall k :: i <= k < i + j ==> !PointsInto(a, i, k)
      {
        if a[i + j] != InfAlpha && a[i + j] >= i && a[i + j] < i + half {
          break;
        }
        j := j + 1;
      }
      if j == half {
        assert WindowFree(a, i);
        return true;
      }
      assert PointsInto(a, i, i + j);
      i := i + 1;
    }
    if s.isSubstring {
      var j := 0;
      while j < half
        invariant 0 <= j <= half
        invariant forall k :: 0 <= k < j ==> a[k] == InfAlpha || a[k] >= half
        invariant forall k :: half <= k < half + j ==> a[k] == InfAlpha || a[k] < half
      {
        if (a[j] != InfAlpha && a[j] < half) || (a[half + j] != InfAlpha && a[half + j] >= half) {
          return false;
        }
        j := j + 1;
      }
      return true;
    }
    return false;
  }

  /** `with_simple_loops()`. */
  method WithSimpleLoops(s: AlphaString) returns (r: bool)
    ensures r == HasSimpleLoop(s)
  {
    var i := 0;
    while i < s.NumOfAlphas() - 1
      invariant 0 <= i
      invariant forall k :: 0 <= k < i && k < |s.alphas| - 1 ==> s.alphas[k] != k + 1
    {
      if s.alphas[i] == i + 1 {
        return true;
      }
      i := i + 1;
    }
    return false;
  }

  /** `is_interesting`: neither simple nor with a simple loop. */
  function IsInteresting(s: AlphaString): (r: bool)
    ensures r ==> forall i :: 0 <= i < |s.alphas| - 1 ==> s.alphas[i] != i + 1
    ensures r ==> forall i :: 0 <= i < |s.alphas| / 2 ==> !WindowFree(s.alphas, i)
    ensures r ==> !(s.isSubstring && |s.alphas| < 2)
  {
    !(IsSimple(s) || HasSimpleLoop(s))
  }

  /**
   * With at least one window, the substring check adds nothing: halves that
   * are separated already make the window at 0 free.  So `simple()` holds iff
   * some window is free, or the string is a substring with fewer than two
   * positions.
   */
  lemma {:induction false} SimpleByWindows(s: AlphaString)
    ensures |s.alphas| / 2 >= 1 && HalvesSeparated(s.alphas) ==> WindowFree(s.alphas, 0)
    ensures IsSimple(s) <==>
      (exists i :: 0 <= i < |s.alphas| / 2 && WindowFree(s.alphas, i)) ||
      (s.isSubstring && |s.alphas| < 2)
  {
    var a := s.alphas;
    var half := |a| / 2;
    if half >= 1 && HalvesSeparated(a) {
      forall k | 0 <= k < half
        ensures !PointsInto(a, 0, k)
      {
        assert a[k] == InfAlpha || a[k] >= half;
      }
      assert WindowFree(a, 0);
    }
    if half == 0 {
      assert HalvesSeparated(a);
    }
  }

  /** The empty string is neither simple, nor with a simple loop: it is interesting. */
  lemma EmptyIsInteresting()
    ensures !IsSimple(Empty) && !HasSimpleLoop(Empty) && IsInteresting(Empty)
  {
  }

  /**
   * The one arc `[1, 0]` is simple and a simple loop, so it is not
   * interesting; two crossing arcs `[2, 3, 0, 1]` are simple too (the window
   * at 0 holds no inner pointer).
   */
  lemma SmallExamples()
    ensures IsSimple(AlphaString([1, 0], false)) && HasSimpleLoop(AlphaString([1, 0], false))
    ensures !IsInteresting(AlphaString([1, 0], false))
    ensures IsSimple(AlphaString([2, 3, 0, 1], false)) && !HasSimpleLoop(AlphaString([2, 3, 0, 1], false))
    ensures !IsInteresting(AlphaString([2, 3, 0, 1], false))
  {
    assert WindowFree([1, 0], 0);
    assert [1, 0][0] == 0 + 1;
    assert WindowFree([2, 3, 0, 1], 0);
  }
}
