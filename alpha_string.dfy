/**
 * The alpha-string value type: a variant of the Gauss code stored as an
 * involution over the positions 0..n-1.  A position either holds the index of
 * its partner (the other end of the same arc) or the marker `InfAlpha` (-1),
 * an unmatched crossing; a string with such a marker is a substring of some
 * alpha-string.
 *
 * The C++ class keeps `num_of_alphas` next to `alphas`; every way of building
 * an object keeps the two equal, so here the count is `|alphas|`.
 */
module AlphaStrings {

  /** The marker for an unmatched crossing (an "\inf" alpha). */
  const InfAlpha: int := -1

  datatype AlphaString = AlphaString(alphas: seq<int>, isSubstring: bool)
  {
    /** The number of positions; the C++ field `num_of_alphas`. */
    function NumOfAlphas(): nat { |alphas| }
  }

  /** The value-initialised object: no positions, not a substring. */
  const Empty: AlphaString := AlphaString([], false)

  /** Position `i` is a marker, or pairs with a different position that pairs back. */
  predicate PairedAt(a: seq<int>, i: int)
    requires 0 <= i < |a|
  {
    a[i] == InfAlpha || (0 <= a[i] < |a| && a[a[i]] == i && a[i] != i)
  }

  /** Every position is paired or a marker: the invariant of every alpha-string object. */
  predicate IsAlpha(a: seq<int>)
  {
    forall i :: 0 <= i < |a| ==> PairedAt(a, i)
  }

  /** `k` is the first position at which the validation of `raw` fails. */
  predicate FirstBroken(raw: seq<int>, k: int)
  {
    0 <= k < |raw| && !PairedAt(raw, k) && forall j :: 0 <= j < k ==> PairedAt(raw, j)
  }

  /**
   * Validated construction from a raw vector.  On success the string holds
   * `raw` and is a substring iff some entry is a marker; on failure it has no
   * positions, and its substring flag is what the scan had set before it met
   * the first broken position.  An entry that is neither a marker nor an index
   * of `raw` counts as broken.
   */
  method Construct(raw: seq<int>) returns (r: AlphaString)
    ensures IsAlpha(raw) ==> r == AlphaString(raw, InfAlpha in raw)
    ensures !IsAlpha(raw) ==>
      r.alphas == [] && exists k :: FirstBroken(raw, k) && r.isSubstring == (InfAlpha in raw[..k])
    ensures r.NumOfAlphas() == |raw| <==> IsAlpha(raw)
  {
    var isSubstring := false;
    var i := 0;
    while i < |raw|
      invariant 0 <= i <= |raw|
      invariant forall j :: 0 <= j < i ==> PairedAt(raw, j)
      invariant isSubstring == (InfAlpha in raw[..i])
    {
      assert raw[..i + 1] == raw[..i] + [raw[i]];
      if raw[i] == InfAlpha {
        isSubstring := true;
      } else if !(0 <= raw[i] < |raw|) || i != raw[raw[i]] || i == raw[i] {
        assert FirstBroken(raw, i);
        r := AlphaString([], isSubstring);
        return;
      }
      i := i + 1;
    }
    assert raw[..i] == raw;
    r := AlphaString(raw, isSubstring);
  }

  /**
   * `operator==`: different lengths are unequal, identical vectors are equal.
   * When the lengths agree but the vectors differ the C++ operator reaches its
   * end without a `return`; the answer modelled there is `false`.  The
   * substring flag is not compared.
   */
  function Equal(x: AlphaString, y: AlphaString): (r: bool)
    ensures r <==> x.alphas == y.alphas
    ensures x.NumOfAlphas() != y.NumOfAlphas() ==> !r
  {
    if y.NumOfAlphas() != x.NumOfAlphas() then false
    else if y.alphas == x.alphas then true
    else false
  }

  /** `operator!=`: the negation of `operator==`. */
  function NotEqual(x: AlphaString, y: AlphaString): (r: bool)
    ensures r <==> x.alphas != y.alphas
  {
    !Equal(x, y)
  }

  /**
   * `y` is the point reflection of `x` as `is_equal` computes it: the entry at
   * `i` of `y` is `n - 1` minus the entry at `n - 1 - i` of `x`.  A marker is
   * reflected like an index, to `n`.
   */
  predicate ReflectedAsWritten(x: seq<int>, y: seq<int>)
  {
    |x| == |y| && forall i :: 0 <= i < |y| ==> y[i] == |x| - 1 - x[|x| - 1 - i]
  }

  /** What `this.is_equal(A)` decides, with `self` for `this` and `other` for `A`. */
  predicate MirrorEqual(self: AlphaString, other: AlphaString)
  {
    other.NumOfAlphas() == self.NumOfAlphas() &&
    (other.alphas == self.alphas || ReflectedAsWritten(self.alphas, other.alphas))
  }

  /** `is_equal`: comparison up to the mirror image, as written. */
  method IsEqual(self: AlphaString, other: AlphaString) returns (r: bool)
    ensures r == MirrorEqual(self, other)
  {
    var n := self.NumOfAlphas();
    if other.NumOfAlphas() != n {
      return false;
    }
    if other.alphas == self.alphas {
      return true;
    }
    var i := 0;
    while i < n
      invariant 0 <= i <= n
      invariant forall k :: 0 <= k < i ==> other.alphas[k] == n - 1 - self.alphas[n - 1 - k]
    {
      if other.alphas[i] != n - 1 - self.alphas[n - 1 - i] {
        return false;
      }
      i := i + 1;
    }
    return true;
  }

  lemma {:induction false} ReflectedAsWrittenSymmetric(x: seq<int>, y: seq<int>)
    requires ReflectedAsWritten(x, y)
    ensures ReflectedAsWritten(y, x)
  {
    forall j | 0 <= j < |x|
      ensures x[j] == |y| - 1 - y[|y| - 1 - j]
    {
      var i := |y| - 1 - j;
      assert y[i] == |x| - 1 - x[|x| - 1 - i];
    }
  }

  /** Mirror equality as written is reflexive and symmetric. */
  lemma {:induction false} MirrorEqualSymmetric(x: AlphaString, y: AlphaString)
    ensures MirrorEqual(x, x)
    ensures MirrorEqual(x, y) <==> MirrorEqual(y, x)
  {
    if ReflectedAsWritten(x.alphas, y.alphas) {
      ReflectedAsWrittenSymmetric(x.alphas, y.alphas);
    }
    if ReflectedAsWritten(y.alphas, x.alphas) {
      ReflectedAsWrittenSymmetric(y.alphas, x.alphas);
    }
  }

  /**
   * The mirror image of a pairing: position `i` takes the reflected partner of
   * position `n - 1 - i`, and a marker stays a marker.
   */
  function Mirror(a: seq<int>): (m: seq<int>)
    ensures |m| == |a|
  {
    seq(|a|, i requires 0 <= i < |a| =>
      if a[|a| - 1 - i] == InfAlpha then InfAlpha else |a| - 1 - a[|a| - 1 - i])
  }

  /** Reflecting an alpha-string twice gives it back. */
  lemma {:induction false} MirrorTwice(a: seq<int>)
    requires IsAlpha(a)
    ensures Mirror(Mirror(a)) == a
  {
    var n := |a|;
    var m := Mirror(a);
    forall i | 0 <= i < n
      ensures Mirror(m)[i] == a[i]
    {
      assert PairedAt(a, i);
      assert m[n - 1 - i] == if a[i] == InfAlpha then InfAlpha else n - 1 - a[i];
    }
  }

  /** A reflected alpha-string is an alpha-string. */
  lemma {:induction false} MirrorIsAlpha(a: seq<int>)
    requires IsAlpha(a)
    ensures IsAlpha(Mirror(a))
  {
    var n := |a|;
    var m := Mirror(a);
    forall i | 0 <= i < n
      ensures PairedAt(m, i)
    {
      var j := n - 1 - i;
      assert PairedAt(a, j);
      if a[j] != InfAlpha {
        var v := n - 1 - a[j];
        assert m[i] == v;
        assert PairedAt(a, a[j]);
        assert m[v] == n - 1 - a[n - 1 - v];
      }
    }
  }

  /** Comparison up to the mirror image with markers reflected to markers. */
  predicate MirrorEqualCorrected(self: AlphaString, other: AlphaString)
  {
    other.NumOfAlphas() == self.NumOfAlphas() &&
    (other.alphas == self.alphas || other.alphas == Mirror(self.alphas))
  }

  /** The corrected comparison is reflexive and symmetric on alpha-strings. */
  lemma {:induction false} MirrorEqualCorrectedSymmetric(x: AlphaString, y: AlphaString)
    requires IsAlpha(x.alphas) && IsAlpha(y.alphas)
    ensures MirrorEqualCorrected(x, x)
    ensures MirrorEqualCorrected(x, y) <==> MirrorEqualCorrected(y, x)
  {
    MirrorTwice(x.alphas);
    MirrorTwice(y.alphas);
  }

  /** On strings without markers the corrected comparison is the one written. */
  lemma {:induction false} MirrorEqualAgreesWithoutMarkers(x: AlphaString, y: AlphaString)
    requires InfAlpha !in x.alphas
    ensures MirrorEqualCorrected(x, y) <==> MirrorEqual(x, y)
  {
    var n := |x.alphas|;
    if |y.alphas| == n {
      forall i | 0 <= i < n
        ensures Mirror(x.alphas)[i] == n - 1 - x.alphas[n - 1 - i]
      {
        assert x.alphas[n - 1 - i] in x.alphas;
      }
      if ReflectedAsWritten(x.alphas, y.alphas) {
        assert y.alphas == Mirror(x.alphas);
      }
    }
  }

  /**
   * `[-1, -1, 3, 2]` and `[1, 0, -1, -1]` are mirror images of each other,
   * yet `is_equal` as written tells them apart: it reflects the marker to 4.
   */
  lemma IsEqualMissesMarkedMirror()
    ensures var x := AlphaString([-1, -1, 3, 2], true);
            var y := AlphaString([1, 0, -1, -1], true);
            IsAlpha(x.alphas) && IsAlpha(y.alphas) &&
            MirrorEqualCorrected(x, y) && !MirrorEqual(x, y)
  {
    var x := AlphaString([-1, -1, 3, 2], true);
    var y := AlphaString([1, 0, -1, -1], true);
    assert PairedAt(x.alphas, 2) && PairedAt(x.alphas, 3);
    assert PairedAt(y.alphas, 0) && PairedAt(y.alphas, 1);
    assert Mirror(x.alphas) == y.alphas;
    assert y.alphas[2] != 3 - x.alphas[1];
  }

  // ---------------------------------------------------------------------------
  // expand_by_arc

  /**
   * The normalisation of the two insertion slots: clamp the first into
   * [0, n] and the second into [0, n + 1], separate them when equal, and order
   * them.  The result is always two distinct ordered slots of a string of
   * length n + 2, and slots that already are such are kept.
   */
  function Normalize(n: nat, firstInd: int, lastInd: int): (r: (int, int))
    ensures 0 <= r.0 < r.1 <= n + 1
    ensures 0 <= firstInd < lastInd <= n + 1 ==> r == (firstInd, lastInd)
    ensures firstInd == 0 && 1 <= lastInd ==> r == (0, if lastInd <= n + 1 then lastInd else n + 1)
  {
    var f := if firstInd < 0 then 0 else firstInd;
    var l := if lastInd < 0 then 0 else lastInd;
    var f := if f > n then n else f;
    var l := if l > n + 1 then n + 1 else l;
    var l := if f == l then l + 1 else l;
    if f > l then (l, f) else (f, l)
  }

  /** `change_func`: where the old index `b` lands once the slots `f < l` are inserted. */
  function Shift(b: int, f: int, l: int): (r: int)
    ensures b <= r <= b + 2
    ensures f < l ==> r != f && r != l
  {
    if b < f then b else if b + 1 >= l then b + 2 else b + 1
  }

  /** The old position that lands at new position `i` (not a new slot). */
  function Unshift(i: int, f: int, l: int): int
  {
    if i < f then i else if i < l then i - 1 else i - 2
  }

  /**
   * The shift is strictly increasing (so injective), never lands on a new slot, maps the old
   * positions onto the other new positions, and keeps the marker.
   */
  lemma ShiftProperties(f: int, l: int, n: nat)
    requires 0 <= f < l <= n + 1
    ensures forall b, c :: b < c ==> Shift(b, f, l) < Shift(c, f, l)
    ensures forall b, c :: Shift(b, f, l) == Shift(c, f, l) ==> b == c
    ensures forall b :: Shift(b, f, l) != f && Shift(b, f, l) != l
    ensures forall b :: 0 <= b < n ==> 0 <= Shift(b, f, l) < n + 2
    ensures forall i :: 0 <= i < n + 2 && i != f && i != l ==>
      0 <= Unshift(i, f, l) < n && Shift(Unshift(i, f, l), f, l) == i
    ensures Shift(InfAlpha, f, l) == InfAlpha
  {
  }

  /**
   * The entry at new position `i` once the slots `f < l` are inserted into
   * `a`: the new arc (or a marker) at the slots, else the shifted old entry
   * from before `f`, between the slots (one back) or after `l` (two back).
   */
  function NewEntry(a: seq<int>, f: int, l: int, twoInf: bool, i: int): int
    requires 0 <= f < l <= |a| + 1 && 0 <= i < |a| + 2
  {
    if i == f then (if twoInf then InfAlpha else l)
    else if i == l then (if twoInf then InfAlpha else f)
    else if i < f then Shift(a[i], f, l)
    else if i < l then Shift(a[i - 1], f, l)
    else Shift(a[i - 2], f, l)
  }

  /** What `expand_by_arc(firstInd, lastInd, twoInf)` returns. */
  function Expanded(s: AlphaString, firstInd: int, lastInd: int, twoInf: bool): (r: AlphaString)
    ensures r.NumOfAlphas() == s.NumOfAlphas() + 2
    ensures r.isSubstring == twoInf
  {
    var n := s.NumOfAlphas();
    var (f, l) := Normalize(n, firstInd, lastInd);
    AlphaString(seq(n + 2, i requires 0 <= i < n + 2 => NewEntry(s.alphas, f, l, twoInf, i)), twoInf)
  }

  /**
   * The two new slots hold each other's index (a new arc) or two markers, and
   * every old entry is copied, shifted, to its shifted position.
   */
  lemma {:induction false} ExpandedReindexes(s: AlphaString, firstInd: int, lastInd: int, twoInf: bool)
    ensures var (f, l) := Normalize(s.NumOfAlphas(), firstInd, lastInd);
      var r := Expanded(s, firstInd, lastInd, twoInf).alphas;
      (if twoInf then r[f] == InfAlpha && r[l] == InfAlpha else r[f] == l && r[l] == f) &&
      forall p :: 0 <= p < s.NumOfAlphas() ==> r[Shift(p, f, l)] == Shift(s.alphas[p], f, l)
  {
    var n := s.NumOfAlphas();
    var (f, l) := Normalize(n, firstInd, lastInd);
    var r := Expanded(s, firstInd, lastInd, twoInf).alphas;
    forall p | 0 <= p < n
      ensures r[Shift(p, f, l)] == Shift(s.alphas[p], f, l)
    {
      var i := Shift(p, f, l);
      assert r[i] == NewEntry(s.alphas, f, l, twoInf, i);
    }
  }

  /**
   * The headline property of the re-indexing: expanding an alpha-string gives
   * an alpha-string, and no old entry points at one of the two new slots.
   */
  lemma {:induction false} ExpandedIsAlpha(s: AlphaString, firstInd: int, lastInd: int, twoInf: bool)
    requires IsAlpha(s.alphas)
    ensures IsAlpha(Expanded(s, firstInd, lastInd, twoInf).alphas)
    ensures var (f, l) := Normalize(s.NumOfAlphas(), firstInd, lastInd);
      var r := Expanded(s, firstInd, lastInd, twoInf).alphas;
      forall i :: 0 <= i < |r| && i != f && i != l ==> r[i] != f && r[i] != l
  {
    var n := s.NumOfAlphas();
    var (f, l) := Normalize(n, firstInd, lastInd);
    var r := Expanded(s, firstInd, lastInd, twoInf).alphas;
    ShiftProperties(f, l, n);
    ExpandedReindexes(s, firstInd, lastInd, twoInf);
    forall i | 0 <= i < n + 2
      ensures PairedAt(r, i)
      ensures i != f && i != l ==> r[i] != f && r[i] != l
    {
      if i != f && i != l {
        var p := Unshift(i, f, l);
        assert r[i] == Shift(s.alphas[p], f, l);
        assert PairedAt(s.alphas, p);
        var v := s.alphas[p];
        if v != InfAlpha {
          assert r[Shift(v, f, l)] == Shift(s.alphas[v], f, l);
        }
      }
    }
  }

  /** Expanding a string without markers by an arc gives one without markers. */
  lemma {:induction false} ExpandedKeepsNoMarker(s: AlphaString, firstInd: int, lastInd: int)
    requires IsAlpha(s.alphas) && InfAlpha !in s.alphas
    ensures InfAlpha !in Expanded(s, firstInd, lastInd, false).alphas
  {
    var n := s.NumOfAlphas();
    var (f, l) := Normalize(n, firstInd, lastInd);
    var r := Expanded(s, firstInd, lastInd, false).alphas;
    ShiftProperties(f, l, n);
    ExpandedReindexes(s, firstInd, lastInd, false);
    forall i | 0 <= i < n + 2
      ensures r[i] != InfAlpha
    {
      if i != f && i != l {
        var p := Unshift(i, f, l);
        assert s.alphas[p] in s.alphas;
        assert PairedAt(s.alphas, p);
        assert r[i] == Shift(s.alphas[p], f, l);
      }
    }
  }

  /**
   * `expand_by_arc`: normalise the slots, then build the longer vector.
   */
  method ExpandByArc(s: AlphaString, firstInd: int, lastInd: int, isTwoInfArcs: bool) returns (r: AlphaString)
    ensures r == Expanded(s, firstInd, lastInd, isTwoInfArcs)
  {
    var n := s.NumOfAlphas();
    var f, l := firstInd, lastInd;
    if f < 0 { f := 0; }
    if l < 0 { l := 0; }
    if f > n { f := n; }
    if l > n + 1 { l := n + 1; }
    if f == l { l := l + 1; }
    if f > l { f, l := l, f; }
    assert (f, l) == Normalize(n, firstInd, lastInd);
    var alphas := FillExpanded(s.alphas, f, l, isTwoInfArcs);
    r := AlphaString(alphas, isTwoInfArcs);
  }

  /**
   * The body of `expand_by_arc` once the slots `f < l` are normalised: write
   * the new arc (or the two markers), then copy the three old ranges through
   * the shift.
   */
  method FillExpanded(a: seq<int>, f: int, l: int, twoInf: bool) returns (r: seq<int>)
    requires 0 <= f < l <= |a| + 1
    ensures |r| == |a| + 2
    ensures forall k :: 0 <= k < |a| + 2 ==> r[k] == NewEntry(a, f, l, twoInf, k)
  {
    var n := |a|;
    var temp := new int[n + 2];
    if twoInf {
      temp[f] := InfAlpha;
      temp[l] := InfAlpha;
    } else {
      temp[f] := l;
      temp[l] := f;
    }
    var i := 0;
    while i < f
      invariant 0 <= i <= f
      invariant temp[l] == NewEntry(a, f, l, twoInf, l)
      invariant forall k :: (0 <= k < i || k == f) ==> temp[k] == NewEntry(a, f, l, twoInf, k)
    {
      temp[i] := Shift(a[i], f, l);
      i := i + 1;
    }
    i := f + 1;
    while i < l
      invariant f + 1 <= i <= l
      invariant temp[l] == NewEntry(a, f, l, twoInf, l)
      invariant forall k :: 0 <= k < i ==> temp[k] == NewEntry(a, f, l, twoInf, k)
    {
      temp[i] := Shift(a[i - 1], f, l);
      i := i + 1;
    }
    i := l + 1;
    while i < n + 2
      invariant l + 1 <= i <= n + 2
      invariant forall k :: 0 <= k < i ==> temp[k] == NewEntry(a, f, l, twoInf, k)
    {
      temp[i] := Shift(a[i - 2], f, l);
      i := i + 1;
    }
    r := temp[..];
  }
}
