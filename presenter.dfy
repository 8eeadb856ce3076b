/**
 * The printer of an alpha-string.  It names every arc (and every marker) by a
 * number: it visits the right half left to right, then the left half right to
 * left, and each position not yet named gets the next number, which its
 * partner (if any) shares.  The output shows the names in position order with
 * a separator before the middle position.
 *
 * The naming is specified without the loop: the visit order gives each
 * position a rank, an arc is first met at the smaller rank of its two ends
 * (its block rank), and the name of a position is one more than the number
 * of arcs and markers first met before its own.
 */
module Presenter {
  import opened AlphaStrings

  /** When the printer reaches position `p` of a string of length `n`. */
  function Rank(n: nat, p: int): (r: int)
    ensures 0 <= p < n ==> 0 <= r < n
  {
    if p >= n / 2 then p - n / 2 else (n - n / 2) + (n / 2 - 1 - p)
  }

  /** The position the printer reaches at step `t`: the inverse of `Rank`. */
  function Visit(n: nat, t: int): (r: int)
    ensures 0 <= t < n ==> 0 <= r < n
  {
    if t < n - n / 2 then n / 2 + t else n / 2 - 1 - (t - (n - n / 2))
  }

  lemma RankVisit(n: nat)
    ensures forall p :: 0 <= p < n ==> 0 <= Rank(n, p) < n && Visit(n, Rank(n, p)) == p
    ensures forall t :: 0 <= t < n ==> 0 <= Visit(n, t) < n && Rank(n, Visit(n, t)) == t
  {
  }

  /** The printer reaches the left position `i` at step `n - 1 - i`. */
  lemma VisitLeft(n: nat, i: int)
    requires 0 <= i < n / 2
    ensures n - n / 2 <= n - 1 - i < n && Visit(n, n - 1 - i) == i
  {
  }

  /** The step at which the printer first meets the arc (or marker) at `p`. */
  function BlockRank(a: seq<int>, p: int): (r: int)
    requires IsAlpha(a) && 0 <= p < |a|
    ensures 0 <= r < |a|
  {
    assert PairedAt(a, p);
    if a[p] == InfAlpha then Rank(|a|, p)
    else if Rank(|a|, p) <= Rank(|a|, a[p]) then Rank(|a|, p)
    else Rank(|a|, a[p])
  }

  /** At step `t` the printer meets a new arc or marker. */
  predicate IsLeader(a: seq<int>, t: int)
    requires IsAlpha(a) && 0 <= t < |a|
  {
    BlockRank(a, Visit(|a|, t)) == t
  }

  /** How many arcs and markers the printer meets in its first `t` steps. */
  function LeaderCount(a: seq<int>, t: int): nat
    requires IsAlpha(a) && 0 <= t <= |a|
  {
    if t == 0 then 0
    else LeaderCount(a, t - 1) + (if IsLeader(a, t - 1) then 1 else 0)
  }

  /** The name the printer gives to position `p`. */
  function CanonicalLabel(a: seq<int>, p: int): int
    requires IsAlpha(a) && 0 <= p < |a|
  {
    1 + LeaderCount(a, BlockRank(a, p))
  }

  /** The block rank is shared by the partner and is the step of one of the two ends. */
  lemma BlockRankFacts(a: seq<int>, p: int)
    requires IsAlpha(a) && 0 <= p < |a|
    ensures BlockRank(a, p) <= Rank(|a|, p)
    ensures a[p] != InfAlpha ==> 0 <= a[p] < |a| && BlockRank(a, a[p]) == BlockRank(a, p)
    ensures Visit(|a|, BlockRank(a, p)) == p || (a[p] != InfAlpha && Visit(|a|, BlockRank(a, p)) == a[p])
    ensures IsLeader(a, BlockRank(a, p))
  {
    RankVisit(|a|);
    assert PairedAt(a, p);
    if a[p] != InfAlpha {
      assert PairedAt(a, a[p]);
    }
  }

  /** Only the position met at step `t` and its partner have block rank `t`. */
  lemma BlockOfStep(a: seq<int>, t: int)
    requires IsAlpha(a) && 0 <= t < |a|
    ensures forall q :: 0 <= q < |a| && BlockRank(a, q) == t ==>
      q == Visit(|a|, t) || (a[Visit(|a|, t)] != InfAlpha && q == a[Visit(|a|, t)])
  {
    forall q | 0 <= q < |a| && BlockRank(a, q) == t
      ensures q == Visit(|a|, t) || (a[Visit(|a|, t)] != InfAlpha && q == a[Visit(|a|, t)])
    {
      BlockRankFacts(a, q);
      if Visit(|a|, t) != q {
        assert PairedAt(a, q);
      }
    }
  }

  lemma {:induction false} LeaderCountMonotone(a: seq<int>, s: int, t: int)
    requires IsAlpha(a) && 0 <= s <= t <= |a|
    ensures LeaderCount(a, s) <= LeaderCount(a, t)
    ensures s < t && IsLeader(a, s) ==> LeaderCount(a, s) + 1 <= LeaderCount(a, t)
    decreases t - s
  {
    if s < t {
      LeaderCountMonotone(a, s, t - 1);
      if s == t - 1 {
        assert LeaderCount(a, t) == LeaderCount(a, s) + (if IsLeader(a, s) then 1 else 0);
      }
    }
  }

  /** Names are positive and at most the number of arcs and markers. */
  lemma LabelRange(a: seq<int>, p: int)
    requires IsAlpha(a) && 0 <= p < |a|
    ensures 1 <= CanonicalLabel(a, p) <= LeaderCount(a, |a|)
  {
    BlockRankFacts(a, p);
    LeaderCountMonotone(a, BlockRank(a, p), |a|);
  }

  /**
   * Two positions share a name iff they are the two ends of one arc, and
   * names grow with the step at which the printer first meets their arc:
   * a marker's name is its own.
   */
  lemma {:induction false} LabelsNameArcs(a: seq<int>, p: int, q: int)
    requires IsAlpha(a) && 0 <= p < |a| && 0 <= q < |a|
    ensures CanonicalLabel(a, p) == CanonicalLabel(a, q) <==> p == q || a[p] == q
    ensures CanonicalLabel(a, p) < CanonicalLabel(a, q) <==> BlockRank(a, p) < BlockRank(a, q)
  {
    BlockRankFacts(a, p);
    BlockRankFacts(a, q);
    var bp, bq := BlockRank(a, p), BlockRank(a, q);
    BlockOfStep(a, bp);
    if bp < bq {
      LeaderCountMonotone(a, bp, bq);
    } else if bq < bp {
      LeaderCountMonotone(a, bq, bp);
    }
    if a[p] == q {
      assert a[p] != InfAlpha;
    }
  }

  /** Every name from 1 to the number of arcs and markers is given to some position. */
  lemma {:induction false} LabelsOnto(a: seq<int>, t: int, l: int)
    requires IsAlpha(a) && 0 <= t <= |a| && 1 <= l <= LeaderCount(a, t)
    ensures exists p :: 0 <= p < |a| && BlockRank(a, p) < t && CanonicalLabel(a, p) == l
  {
    assert LeaderCount(a, t) == LeaderCount(a, t - 1) + (if IsLeader(a, t - 1) then 1 else 0);
    if l <= LeaderCount(a, t - 1) {
      LabelsOnto(a, t - 1, l);
    } else {
      var p := Visit(|a|, t - 1);
      assert BlockRank(a, p) == t - 1;
      assert CanonicalLabel(a, p) == l;
    }
  }

  /**
   * The state of the printer after `t` steps: `num` arcs and markers met,
   * exactly the positions whose arc was met are named, and named correctly.
   */
  ghost predicate LabelledUpTo(a: seq<int>, temp: seq<int>, notChanged: seq<bool>, num: int, t: int)
    requires IsAlpha(a) && 0 <= t <= |a|
  {
    |temp| == |a| && |notChanged| == |a| &&
    num == LeaderCount(a, t) &&
    (forall p {:trigger notChanged[p]} :: 0 <= p < |a| ==> (notChanged[p] <==> BlockRank(a, p) >= t)) &&
    (forall p {:trigger temp[p]} :: 0 <= p < |a| && BlockRank(a, p) < t ==> temp[p] == CanonicalLabel(a, p))
  }

  /** Before the first step nothing is named. */
  lemma LabelledAtStart(a: seq<int>, temp: seq<int>, notChanged: seq<bool>)
    requires IsAlpha(a) && |temp| == |a| && |notChanged| == |a|
    requires forall p :: 0 <= p < |a| ==> notChanged[p]
    ensures LabelledUpTo(a, temp, notChanged, 0, 0)
  {
  }

  /** After the last step every position has its name. */
  lemma LabelledAtEnd(a: seq<int>, temp: seq<int>, notChanged: seq<bool>, num: int)
    requires IsAlpha(a) && LabelledUpTo(a, temp, notChanged, num, |a|)
    ensures |temp| == |a| && forall p :: 0 <= p < |a| ==> temp[p] == CanonicalLabel(a, p)
  {
  }

  /** A step at a position already named changes nothing. */
  lemma {:induction false} LabelStepSkip(a: seq<int>, temp: seq<int>, notChanged: seq<bool>, num: int, t: int)
    requires IsAlpha(a) && 0 <= t < |a| && LabelledUpTo(a, temp, notChanged, num, t)
    requires !notChanged[Visit(|a|, t)]
    ensures LabelledUpTo(a, temp, notChanged, num, t + 1)
  {
    var p := Visit(|a|, t);
    BlockRankFacts(a, p);
    BlockOfStep(a, t);
    assert LeaderCount(a, t + 1) == LeaderCount(a, t) + (if IsLeader(a, t) then 1 else 0);
    assert !IsLeader(a, t);
  }

  /** A step at a marker not yet named gives it the next name. */
  lemma {:induction false} LabelStepMarker(a: seq<int>, temp: seq<int>, notChanged: seq<bool>, num: int, t: int)
    requires IsAlpha(a) && 0 <= t < |a| && LabelledUpTo(a, temp, notChanged, num, t)
    requires notChanged[Visit(|a|, t)] && a[Visit(|a|, t)] == InfAlpha
    ensures var p := Visit(|a|, t);
      LabelledUpTo(a, temp[p := num + 1], notChanged[p := false], num + 1, t + 1)
  {
    var p := Visit(|a|, t);
    BlockRankFacts(a, p);
    BlockOfStep(a, t);
    var temp', notChanged' := temp[p := num + 1], notChanged[p := false];
    assert BlockRank(a, p) == t;
    assert LeaderCount(a, t + 1) == num + 1;
    forall q | 0 <= q < |a|
      ensures notChanged'[q] <==> BlockRank(a, q) >= t + 1
      ensures BlockRank(a, q) < t + 1 ==> temp'[q] == CanonicalLabel(a, q)
    {
      if q != p {
        assert notChanged'[q] == notChanged[q] && temp'[q] == temp[q];
      }
    }
  }

  /** A step at an arc end not yet named gives both ends the next name. */
  lemma {:induction false} LabelStepArc(a: seq<int>, temp: seq<int>, notChanged: seq<bool>, num: int, t: int)
    requires IsAlpha(a) && 0 <= t < |a| && LabelledUpTo(a, temp, notChanged, num, t)
    requires notChanged[Visit(|a|, t)] && a[Visit(|a|, t)] != InfAlpha
    ensures var p := Visit(|a|, t);
      0 <= a[p] < |a| &&
      LabelledUpTo(a, temp[p := num + 1][a[p] := num + 1], notChanged[p := false][a[p] := false], num + 1, t + 1)
  {
    var p := Visit(|a|, t);
    BlockRankFacts(a, p);
    BlockOfStep(a, t);
    var p' := a[p];
    var temp', notChanged' := temp[p := num + 1][p' := num + 1], notChanged[p := false][p' := false];
    assert BlockRank(a, p) == t && BlockRank(a, p') == t;
    assert LeaderCount(a, t + 1) == num + 1;
    forall q | 0 <= q < |a|
      ensures notChanged'[q] <==> BlockRank(a, q) >= t + 1
      ensures BlockRank(a, q) < t + 1 ==> temp'[q] == CanonicalLabel(a, q)
    {
      if q != p && q != p' {
        assert notChanged'[q] == notChanged[q] && temp'[q] == temp[q];
      }
    }
  }

  /**
   * The labelling part of `operator<<`: the name of every position, in
   * position order.
   */
  method Labels(s: AlphaString) returns (labels: seq<int>)
    requires IsAlpha(s.alphas)
    ensures |labels| == s.NumOfAlphas()
    ensures forall p :: 0 <= p < |labels| ==> labels[p] == CanonicalLabel(s.alphas, p)
  {
    var a := s.alphas;
    var n := |a|;
    var temp := new int[n](i requires 0 <= i < n => a[i]);
    var notChanged := new bool[n](i => true);
    LabelledAtStart(a, temp[..], notChanged[..]);
    var num := NameRightHalf(a, temp, notChanged);
    num := NameLeftHalf(a, temp, notChanged, num);
    LabelledAtEnd(a, temp[..], notChanged[..], num);
    labels := temp[..];
  }

  /** Every position whose arc is met at step `t` or later still holds its value from `entry`. */
  ghost predicate UnnamedKept(a: seq<int>, temp: seq<int>, entry: seq<int>, t: int)
    requires IsAlpha(a)
  {
    |temp| == |a| && |entry| == |a| &&
    forall p {:trigger temp[p]} :: 0 <= p < |a| && BlockRank(a, p) >= t ==> temp[p] == entry[p]
  }

  /** Keeping the unnamed entries for one more step, after keeping them so far. */
  lemma UnnamedKeptTrans(a: seq<int>, temp: seq<int>, mid: seq<int>, entry: seq<int>, t: int)
    requires IsAlpha(a)
    requires UnnamedKept(a, temp, mid, t + 1) && UnnamedKept(a, mid, entry, t)
    ensures UnnamedKept(a, temp, entry, t + 1)
  {
  }

  /** The first labelling loop: the right half, left to right (steps 0 .. n - n/2 - 1). */
  method NameRightHalf(a: seq<int>, temp: array<int>, notChanged: array<bool>) returns (num: int)
    requires IsAlpha(a)
    requires LabelledUpTo(a, temp[..], notChanged[..], 0, 0)
    modifies temp, notChanged
    ensures LabelledUpTo(a, temp[..], notChanged[..], num, |a| - |a| / 2)
    ensures UnnamedKept(a, temp[..], old(temp[..]), |a| - |a| / 2)
  {
    var n := |a|;
    ghost var entry := temp[..];
    num := 0;
    var i := n / 2;
    while i < n
      invariant n / 2 <= i <= n
      invariant LabelledUpTo(a, temp[..], notChanged[..], num, i - n / 2)
      invariant UnnamedKept(a, temp[..], entry, i - n / 2)
    {
      ghost var before := temp[..];
      num := NameAt(a, temp, notChanged, num, i, i - n / 2);
      UnnamedKeptTrans(a, temp[..], before, entry, i - n / 2);
      i := i + 1;
    }
  }

  /** The second labelling loop: the left half, right to left (steps n - n/2 .. n - 1). */
  method NameLeftHalf(a: seq<int>, temp: array<int>, notChanged: array<bool>, num0: int) returns (num: int)
    requires IsAlpha(a)
    requires LabelledUpTo(a, temp[..], notChanged[..], num0, |a| - |a| / 2)
    modifies temp, notChanged
    ensures LabelledUpTo(a, temp[..], notChanged[..], num, |a|)
  {
    var n := |a|;
    ghost var entry := temp[..];
    num := num0;
    var i := n / 2 - 1;
    while i > -1
      invariant -1 <= i <= n / 2 - 1
      invariant LabelledUpTo(a, temp[..], notChanged[..], num, n - 1 - i)
      invariant UnnamedKept(a, temp[..], entry, n - 1 - i)
    {
      num := NameLeftAt(a, temp, notChanged, num, i, entry);
      i := i - 1;
    }
  }

  /** The body of the second labelling loop at the left position `i`, reached at step `n - 1 - i`. */
  method NameLeftAt(a: seq<int>, temp: array<int>, notChanged: array<bool>, num: int, i: int, ghost entry: seq<int>)
    returns (num': int)
    requires IsAlpha(a) && 0 <= i < |a| / 2
    requires LabelledUpTo(a, temp[..], notChanged[..], num, |a| - 1 - i)
    requires UnnamedKept(a, temp[..], entry, |a| - 1 - i)
    modifies temp, notChanged
    ensures LabelledUpTo(a, temp[..], notChanged[..], num', |a| - i)
    ensures UnnamedKept(a, temp[..], entry, |a| - i)
  {
    VisitLeft(|a|, i);
    ghost var before := temp[..];
    num' := NameAt(a, temp, notChanged, num, i, |a| - 1 - i);
    UnnamedKeptTrans(a, temp[..], before, entry, |a| - 1 - i);
  }

  /**
   * The body of both labelling loops, at the position `i` reached at step
   * `t`: if `i` has no name yet, give it the next one, and its partner too.
   */
  method NameAt(a: seq<int>, temp: array<int>, notChanged: array<bool>, num: int, i: int, ghost t: int)
    returns (num': int)
    requires IsAlpha(a) && 0 <= t < |a| && Visit(|a|, t) == i
    requires LabelledUpTo(a, temp[..], notChanged[..], num, t)
    modifies temp, notChanged
    ensures LabelledUpTo(a, temp[..], notChanged[..], num', t + 1)
    ensures UnnamedKept(a, temp[..], old(temp[..]), t + 1)
  {
    num' := num;
    if !notChanged[i] {
      LabelStepSkip(a, temp[..], notChanged[..], num, t);
    } else if a[i] == InfAlpha {
      LabelStepMarker(a, temp[..], notChanged[..], num, t);
    } else {
      LabelStepArc(a, temp[..], notChanged[..], num, t);
    }
    if notChanged[i] {
      notChanged[i] := false;
      num' := num' + 1;
      temp[i] := num';
      if a[i] != InfAlpha {
        notChanged[a[i]] := false;
        temp[a[i]] := num';
      }
    }
  }

  /** The printed tokens: `"| "` and `"[k] "`. */
  datatype Token = Separator | Label(name: int)

  /**
   * `operator<<` as a token sequence: the names in position order, with the
   * separator before position n/2 (and none at all for the empty string).
   */
  method Render(s: AlphaString) returns (out: seq<Token>)
    requires IsAlpha(s.alphas)
    ensures var n := s.NumOfAlphas();
      |out| == n + (if n > 0 then 1 else 0) &&
      (n > 0 ==> out[n / 2] == Separator) &&
      (forall k :: 0 <= k < n / 2 ==> out[k] == Label(CanonicalLabel(s.alphas, k))) &&
      (forall k :: n / 2 <= k < n ==> out[k + 1] == Label(CanonicalLabel(s.alphas, k)))
  {
    var labels := Labels(s);
    out := Layout(labels);
  }

  /** The printing loop: each name in turn, with the separator before position n/2. */
  method Layout(labels: seq<int>) returns (out: seq<Token>)
    ensures var n := |labels|;
      |out| == n + (if n > 0 then 1 else 0) &&
      (n > 0 ==> out[n / 2] == Separator) &&
      (forall k :: 0 <= k < n / 2 ==> out[k] == Label(labels[k])) &&
      (forall k :: n / 2 <= k < n ==> out[k + 1] == Label(labels[k]))
  {
    var n := |labels|;
    out := [];
    var i := 0;
    while i < n
      invariant 0 <= i <= n
      invariant |out| == i + (if i > n / 2 then 1 else 0)
      invariant i > n / 2 ==> out[n / 2] == Separator
      invariant forall k :: 0 <= k < i && k < n / 2 ==> out[k] == Label(labels[k])
      invariant forall k :: n / 2 <= k < i ==> out[k + 1] == Label(labels[k])
    {
      if i == n / 2 {
        out := out + [Separator];
      }
      out := out + [Label(labels[i])];
      i := i + 1;
    }
  }
}
