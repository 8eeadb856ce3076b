/**
 * The level-by-level enumerator.  Two tables, indexed by complexity (the
 * number of arcs), hold every generated alpha-string and the interesting ones.
 * Level k + 1 is built from level k by adding a new arc from position 0 to
 * every other slot of every string; the interesting results are kept once
 * each, up to exact equality.  The tables are passed by reference in the
 * source; here a step takes them and returns their new values.
 */
module Enumerator {
  import opened AlphaStrings
  import opened Classification

  type Table = seq<seq<AlphaString>>

  /** `vector::resize`: keep the first `size` levels, add empty ones up to `size`. */
  function Resize(t: Table, size: nat): (r: Table)
    ensures |r| == size
    ensures forall k :: 0 <= k < size && k < |t| ==> r[k] == t[k]
    ensures forall k :: |t| <= k < size ==> r[k] == []
  {
    if size <= |t| then t[..size] else t + seq(size - |t|, _ => [])
  }

  /** The `2 * lastN + 3` strings made from `alpha` by an arc from 0 to each of 1 .. 2 * lastN + 3. */
  function ArcsFrom(alpha: AlphaString, lastN: nat): (r: seq<AlphaString>)
    ensures |r| == 2 * lastN + 3
  {
    seq(2 * lastN + 3, j requires 0 <= j < 2 * lastN + 3 => Expanded(alpha, 0, j + 1, false))
  }

  /** Every expansion of the strings of `level`, in the order the nested loops make them. */
  function Expansions(level: seq<AlphaString>, lastN: nat): (r: seq<AlphaString>)
    ensures |r| == |level| * (2 * lastN + 3)
  {
    if level == [] then []
    else
      var r := Expansions(level[..|level| - 1], lastN) + ArcsFrom(level[|level| - 1], lastN);
      assert |r| == (|level| - 1) * (2 * lastN + 3) + (2 * lastN + 3);
      r
  }

  /** `list` has an element equal to `x` under `operator==`: what `find` looks for. */
  predicate ContainsExact(list: seq<AlphaString>, x: AlphaString)
  {
    exists k :: 0 <= k < |list| && Equal(list[k], x)
  }

  /** No two elements of `list` are equal under `operator==`. */
  predicate NoDuplicates(list: seq<AlphaString>)
  {
    forall i, j :: 0 <= i < j < |list| ==> !Equal(list[i], list[j])
  }

  /**
   * The interesting list after the candidates `xs` were offered in order to
   * `acc`: each interesting candidate not yet present is appended.
   */
  function AddInteresting(acc: seq<AlphaString>, xs: seq<AlphaString>): (r: seq<AlphaString>)
    ensures |acc| <= |r| <= |acc| + |xs| && r[..|acc|] == acc
  {
    if xs == [] then acc
    else
      var before := AddInteresting(acc, xs[..|xs| - 1]);
      var x := xs[|xs| - 1];
      if IsInteresting(x) && !ContainsExact(before, x) then before + [x] else before
  }

  /** Offering one more candidate `x` after `xs`. */
  lemma AddInterestingSnoc(acc: seq<AlphaString>, xs: seq<AlphaString>, x: AlphaString)
    ensures AddInteresting(acc, xs + [x]) ==
      var before := AddInteresting(acc, xs);
      if IsInteresting(x) && !ContainsExact(before, x) then before + [x] else before
  {
    assert (xs + [x])[..|xs|] == xs;
  }

  /** The expansions of one more string come after those of the strings before it. */
  lemma ExpansionsSnoc(level: seq<AlphaString>, k: nat, lastN: nat)
    requires k < |level|
    ensures Expansions(level[..k + 1], lastN) == Expansions(level[..k], lastN) + ArcsFrom(level[k], lastN)
  {
    assert level[..k + 1][..k] == level[..k];
  }

  /**
   * `std::find` with `operator==`: the first index holding a string equal to
   * `x`, or `|list|` (the end iterator) when there is none.
   */
  method Find(list: seq<AlphaString>, x: AlphaString) returns (idx: nat)
    ensures idx <= |list|
    ensures forall k :: 0 <= k < idx ==> !Equal(list[k], x)
    ensures idx < |list| ==> Equal(list[idx], x)
    ensures idx == |list| <==> !ContainsExact(list, x)
  {
    idx := 0;
    while idx < |list| && !Equal(list[idx], x)
      invariant 0 <= idx <= |list|
      invariant forall k :: 0 <= k < idx ==> !Equal(list[k], x)
    {
      idx := idx + 1;
    }
  }

  /**
   * The tables after one `make_alpha_signature` step: both grow to
   * `2 * (lastN + 1)` levels when `lastN` is the last level; then level
   * `lastN + 1` gains every expansion of every string of level `lastN`, and
   * the interesting level `lastN + 1` each interesting expansion that it does
   * not hold yet.  No other level changes.
   */
  function SignatureStep(allSignatures: Table, allInteresting: Table, lastN: nat): (r: (Table, Table))
    requires lastN < |allSignatures|
    requires lastN == |allSignatures| - 1 || lastN + 1 < |allInteresting|
    ensures lastN + 1 < |r.0| && lastN + 1 < |r.1|
  {
    var grow := lastN == |allSignatures| - 1;
    var sigs0 := if grow then Resize(allSignatures, 2 * (lastN + 1)) else allSignatures;
    var ints0 := if grow then Resize(allInteresting, 2 * (lastN + 1)) else allInteresting;
    var added := Expansions(allSignatures[lastN], lastN);
    (sigs0[lastN + 1 := sigs0[lastN + 1] + added], ints0[lastN + 1 := AddInteresting(ints0[lastN + 1], added)])
  }

  /** What one step changes: the size of both tables, and level `lastN + 1` of each; nothing else. */
  lemma SignatureStepFrame(allSignatures: Table, allInteresting: Table, lastN: nat)
    requires lastN < |allSignatures|
    requires lastN == |allSignatures| - 1 || lastN + 1 < |allInteresting|
    ensures var r := SignatureStep(allSignatures, allInteresting, lastN);
      var grow := lastN == |allSignatures| - 1;
      |r.0| == (if grow then 2 * (lastN + 1) else |allSignatures|) &&
      |r.1| == (if grow then 2 * (lastN + 1) else |allInteresting|)
    ensures var r := SignatureStep(allSignatures, allInteresting, lastN);
      r.0[lastN + 1] ==
        (if lastN + 1 < |allSignatures| then allSignatures[lastN + 1] else []) + Expansions(allSignatures[lastN], lastN) &&
      r.1[lastN + 1] ==
        AddInteresting(if lastN + 1 < |allInteresting| then allInteresting[lastN + 1] else [],
                       Expansions(allSignatures[lastN], lastN))
    ensures var r := SignatureStep(allSignatures, allInteresting, lastN);
      forall k :: 0 <= k < |r.0| && k != lastN + 1 ==>
        r.0[k] == if k < |allSignatures| then allSignatures[k] else []
    ensures var r := SignatureStep(allSignatures, allInteresting, lastN);
      forall k :: 0 <= k < |r.1| && k != lastN + 1 ==>
        r.1[k] == if k < |allInteresting| then allInteresting[k] else []
  {
  }

  /** Offering `xs` then `ys` is offering `xs + ys`. */
  lemma {:induction false} AddInterestingAppend(acc: seq<AlphaString>, xs: seq<AlphaString>, ys: seq<AlphaString>)
    ensures AddInteresting(acc, xs + ys) == AddInteresting(AddInteresting(acc, xs), ys)
    decreases |ys|
  {
    if ys == [] {
      assert xs + ys == xs;
    } else {
      var ys' := ys[..|ys| - 1];
      AddInterestingAppend(acc, xs, ys');
      assert (xs + ys)[..|xs + ys| - 1] == xs + ys';
    }
  }

  /**
   * The inner loop of `make_alpha_signature` for one string `alpha`: for
   * every `i` in 1 .. 2 * lastN + 3 the expansion by the arc (0, i) is
   * appended to `next`, and to `nextInteresting` when it is interesting and
   * `std::find` does not find it there.
   */
  method OfferArcs(alpha: AlphaString, lastN: nat, next: seq<AlphaString>, nextInteresting: seq<AlphaString>)
    returns (next': seq<AlphaString>, nextInteresting': seq<AlphaString>)
    ensures next' == next + ArcsFrom(alpha, lastN)
    ensures nextInteresting' == AddInteresting(nextInteresting, ArcsFrom(alpha, lastN))
  {
    ghost var arcs := ArcsFrom(alpha, lastN);
    assert arcs[..0] == [];
    next', nextInteresting' := next, nextInteresting;
    var i := 1;
    while i < 2 * (lastN + 2)
      invariant 1 <= i <= 2 * (lastN + 2)
      invariant next' == next + arcs[..i - 1]
      invariant nextInteresting' == AddInteresting(nextInteresting, arcs[..i - 1])
    {
      var temp := ExpandByArc(alpha, 0, i, false);
      assert arcs[..i] == arcs[..i - 1] + [temp];
      AddInterestingSnoc(nextInteresting, arcs[..i - 1], temp);
      next' := next' + [temp];
      if IsInteresting(temp) {
        var idx := Find(nextInteresting', temp);
        if idx == |nextInteresting'| {
          nextInteresting' := nextInteresting' + [temp];
        }
      }
      i := i + 1;
    }
    assert arcs[..i - 1] == arcs;
  }

  /** The outer loop of `make_alpha_signature` keeps its first invariant across one string. */
  lemma MakeStepLevel(base: seq<AlphaString>, level: seq<AlphaString>, k: nat, lastN: nat,
                      prev: seq<AlphaString>, next: seq<AlphaString>)
    requires k < |level|
    requires prev == base + Expansions(level[..k], lastN)
    requires next == prev + ArcsFrom(level[k], lastN)
    ensures next == base + Expansions(level[..k + 1], lastN)
  {
    var done, arcs := Expansions(level[..k], lastN), ArcsFrom(level[k], lastN);
    ExpansionsSnoc(level, k, lastN);
    assert (base + done) + arcs == base + (done + arcs);
  }

  /** The outer loop of `make_alpha_signature` keeps its second invariant across one string. */
  lemma MakeStepInteresting(baseInteresting: seq<AlphaString>, level: seq<AlphaString>, k: nat, lastN: nat,
                            nextInteresting: seq<AlphaString>)
    requires k < |level|
    requires nextInteresting ==
      AddInteresting(AddInteresting(baseInteresting, Expansions(level[..k], lastN)), ArcsFrom(level[k], lastN))
    ensures nextInteresting == AddInteresting(baseInteresting, Expansions(level[..k + 1], lastN))
  {
    ExpansionsSnoc(level, k, lastN);
    AddInterestingAppend(baseInteresting, Expansions(level[..k], lastN), ArcsFrom(level[k], lastN));
  }

  /**
   * `make_alpha_signature`: the outer loop runs over the strings of level
   * `lastN`, the inner one (`OfferArcs`) over the new arcs of each.
   */
  method MakeAlphaSignature(allSignatures: Table, allInteresting: Table, lastN: int)
    returns (signatures: Table, interesting: Table)
    requires 0 <= lastN < |allSignatures|
    requires lastN == |allSignatures| - 1 || lastN + 1 < |allInteresting|
    ensures (signatures, interesting) == SignatureStep(allSignatures, allInteresting, lastN)
  {
    signatures, interesting := allSignatures, allInteresting;
    if lastN == |signatures| - 1 {
      signatures := Resize(signatures, 2 * (lastN + 1));
      interesting := Resize(interesting, 2 * (lastN + 1));
    }
    ghost var sigs0, ints0 := signatures, interesting;
    var level := signatures[lastN];
    assert level == allSignatures[lastN];
    var next := signatures[lastN + 1];
    var nextInteresting := interesting[lastN + 1];
    var k := 0;
    while k < |level|
      invariant 0 <= k <= |level|
      invariant next == sigs0[lastN + 1] + Expansions(level[..k], lastN)
      invariant nextInteresting == AddInteresting(ints0[lastN + 1], Expansions(level[..k], lastN))
    {
      ghost var prev := next;
      next, nextInteresting := OfferArcs(level[k], lastN, next, nextInteresting);
      MakeStepLevel(sigs0[lastN + 1], level, k, lastN, prev, next);
      MakeStepInteresting(ints0[lastN + 1], level, k, lastN, nextInteresting);
      k := k + 1;
    }
    assert level[..k] == level;
    signatures := signatures[lastN + 1 := next];
    interesting := interesting[lastN + 1 := nextInteresting];
  }

  /** The interesting list only grows, and what it gains is interesting and was offered. */
  lemma {:induction false} AddInterestingSound(acc: seq<AlphaString>, xs: seq<AlphaString>)
    ensures var r := AddInteresting(acc, xs);
      |acc| <= |r| && r[..|acc|] == acc &&
      forall k :: |acc| <= k < |r| ==> IsInteresting(r[k]) && r[k] in xs
  {
    if xs != [] {
      var xs' := xs[..|xs| - 1];
      AddInterestingSound(acc, xs');
      var before := AddInteresting(acc, xs');
      var r := AddInteresting(acc, xs);
      forall k | |acc| <= k < |r|
        ensures IsInteresting(r[k]) && r[k] in xs
      {
        if k < |before| {
          assert r[k] == before[k] && before[k] in xs';
        }
      }
    }
  }

  /** Appending only absent candidates keeps the list free of duplicates. */
  lemma {:induction false} AddInterestingKeepsNoDuplicates(acc: seq<AlphaString>, xs: seq<AlphaString>)
    requires NoDuplicates(acc)
    ensures NoDuplicates(AddInteresting(acc, xs))
  {
    if xs != [] {
      var xs' := xs[..|xs| - 1];
      AddInterestingKeepsNoDuplicates(acc, xs');
      var before := AddInteresting(acc, xs');
      var x := xs[|xs| - 1];
      if IsInteresting(x) && !ContainsExact(before, x) {
        var r := before + [x];
        forall i, j | 0 <= i < j < |r|
          ensures !Equal(r[i], r[j])
        {
          if j == |before| {
            assert !Equal(before[i], x);
          }
        }
      }
    }
  }

  /** Every interesting candidate offered ends up in the list, up to `operator==`. */
  lemma {:induction false} AddInterestingComplete(acc: seq<AlphaString>, xs: seq<AlphaString>)
    ensures forall x :: x in xs && IsInteresting(x) ==> ContainsExact(AddInteresting(acc, xs), x)
    ensures forall x :: ContainsExact(acc, x) ==> ContainsExact(AddInteresting(acc, xs), x)
  {
    if xs != [] {
      var xs' := xs[..|xs| - 1];
      AddInterestingComplete(acc, xs');
      var before := AddInteresting(acc, xs');
      var last := xs[|xs| - 1];
      var r := AddInteresting(acc, xs);
      assert r[..|before|] == before;
      forall x | ContainsExact(before, x)
        ensures ContainsExact(r, x)
      {
        var k :| 0 <= k < |before| && Equal(before[k], x);
        assert r[k] == before[k];
      }
      forall x | x in xs && IsInteresting(x)
        ensures ContainsExact(r, x)
      {
        if x in xs' {
          assert ContainsExact(before, x);
        } else {
          assert x == last;
          if !ContainsExact(before, x) {
            assert r[|before|] == x;
          }
        }
      }
    }
  }

  /** Offering candidates the list already has changes nothing. */
  lemma {:induction false} AddInterestingNoGrowth(acc: seq<AlphaString>, xs: seq<AlphaString>)
    requires forall x :: x in xs && IsInteresting(x) ==> ContainsExact(acc, x)
    ensures AddInteresting(acc, xs) == acc
  {
    if xs != [] {
      var xs' := xs[..|xs| - 1];
      assert forall x :: x in xs' ==> x in xs;
      AddInterestingNoGrowth(acc, xs');
      assert xs[|xs| - 1] in xs;
    }
  }

  /** A second pass over the same candidates adds nothing: the deduplication is idempotent. */
  lemma AddInterestingIdempotent(acc: seq<AlphaString>, xs: seq<AlphaString>)
    ensures AddInteresting(AddInteresting(acc, xs), xs) == AddInteresting(acc, xs)
  {
    AddInterestingComplete(acc, xs);
    AddInterestingNoGrowth(AddInteresting(acc, xs), xs);
  }

  /** A string of a complete level `k`: `k` arcs, valid, no markers, not a substring. */
  predicate Shaped(x: AlphaString, k: nat)
  {
    x.NumOfAlphas() == 2 * k && IsAlpha(x.alphas) && InfAlpha !in x.alphas && !x.isSubstring
  }

  /** Expanding strings of `lastN` arcs gives strings of `lastN + 1` arcs. */
  lemma {:induction false} ExpansionsShaped(level: seq<AlphaString>, lastN: nat)
    requires forall x :: x in level ==> Shaped(x, lastN)
    ensures forall y :: y in Expansions(level, lastN) ==> Shaped(y, lastN + 1)
  {
    if level != [] {
      var front := level[..|level| - 1];
      var alpha := level[|level| - 1];
      assert forall x :: x in front ==> x in level;
      ExpansionsShaped(front, lastN);
      assert alpha in level;
      var arcs := ArcsFrom(alpha, lastN);
      forall j | 0 <= j < |arcs|
        ensures Shaped(arcs[j], lastN + 1)
      {
        ExpandedIsAlpha(alpha, 0, j + 1, false);
        ExpandedKeepsNoMarker(alpha, 0, j + 1);
      }
    }
  }

  /** Level `k` of the complete enumeration: the empty string, then the expansions of the level below. */
  function Level(k: nat): seq<AlphaString>
  {
    if k == 0 then [Empty] else Expansions(Level(k - 1), k - 1)
  }

  /** Every string of level `k` has `k` arcs, is valid, has no marker and is not a substring. */
  lemma {:induction false} LevelShaped(k: nat)
    ensures forall x :: x in Level(k) ==> Shaped(x, k)
  {
    if k > 0 {
      LevelShaped(k - 1);
      ExpansionsShaped(Level(k - 1), k - 1);
    }
  }

  /**
   * Level 1 holds the one-arc string `[1, 0]` three times (the arcs to 2 and
   * 3 are clamped to 1), and none of its strings is interesting.
   */
  lemma LevelOne()
    ensures Level(1) == [AlphaString([1, 0], false), AlphaString([1, 0], false), AlphaString([1, 0], false)]
    ensures AddInteresting([], Level(1)) == []
  {
    var one := AlphaString([1, 0], false);
    forall j | 1 <= j <= 3
      ensures Expanded(Empty, 0, j, false) == one
    {
      assert Expanded(Empty, 0, j, false).alphas == [1, 0];
    }
    assert Expansions([Empty], 0) == Expansions([], 0) + ArcsFrom(Empty, 0);
    assert ArcsFrom(Empty, 0) == [one, one, one];
    SmallExamples();
    var xs := [one, one, one];
    assert AddInteresting([], xs) == AddInteresting([], xs[..2]);
    assert AddInteresting([], xs[..2]) == AddInteresting([], xs[..1]);
    assert AddInteresting([], xs[..1]) == AddInteresting([], []);
  }

  /**
   * The tables after levels 0 .. n - 1 were expanded: level k <= n holds
   * `Level(k)`, interesting level 0 is empty, interesting level 0 < k <= n
   * holds the interesting strings of `Level(k)` once each, and every level
   * above n is empty.
   */
  predicate Enumerated(sigs: Table, ints: Table, n: nat)
  {
    n < |sigs| == |ints| &&
    (forall k :: 0 <= k <= n ==> sigs[k] == Level(k)) &&
    ints[0] == [] &&
    (forall k :: 0 < k <= n ==> ints[k] == AddInteresting([], Level(k))) &&
    (forall k :: n < k < |sigs| ==> sigs[k] == [] && ints[k] == [])
  }

  /** One `make_alpha_signature` step on level n completes level n + 1. */
  lemma EnumeratedStep(sigs: Table, ints: Table, n: nat)
    requires Enumerated(sigs, ints, n)
    ensures n == |sigs| - 1 || n + 1 < |ints|
    ensures var r := SignatureStep(sigs, ints, n); Enumerated(r.0, r.1, n + 1)
  {
    var r := SignatureStep(sigs, ints, n);
    SignatureStepFrame(sigs, ints, n);
    var s1, i1 := r.0, r.1;
    assert |s1| == |i1|;
    assert s1[n + 1] == Level(n + 1) by {
      assert s1[n + 1] == [] + Expansions(Level(n), n);
      assert [] + Expansions(Level(n), n) == Level(n + 1);
    }
    assert i1[n + 1] == AddInteresting([], Level(n + 1));
    forall k | 0 <= k <= n
      ensures s1[k] == Level(k) && (0 < k ==> i1[k] == AddInteresting([], Level(k)))
    {
      assert s1[k] == sigs[k] && i1[k] == ints[k];
    }
    assert i1[0] == [];
    forall k | n + 1 < k < |s1|
      ensures s1[k] == [] && i1[k] == []
    {
    }
  }

  /** The interesting lists of a completed enumeration: interesting strings, no two equal. */
  lemma EnumeratedInteresting(sigs: Table, ints: Table, n: nat)
    requires Enumerated(sigs, ints, n)
    ensures forall k :: 0 <= k < |ints| ==>
      NoDuplicates(ints[k]) && forall x :: x in ints[k] ==> IsInteresting(x)
  {
    forall k | 0 < k <= n
      ensures NoDuplicates(ints[k]) && forall x :: x in ints[k] ==> IsInteresting(x)
    {
      AddInterestingSound([], Level(k));
      AddInterestingKeepsNoDuplicates([], Level(k));
    }
  }

  /**
   * The enumeration loop of `main`: level 0 holds the empty string, then
   * levels 0 .. maxComplexity - 1 are expanded in turn.
   */
  method Enumerate(maxComplexity: int) returns (signatures: Table, interesting: Table)
    requires 0 <= maxComplexity
    ensures Enumerated(signatures, interesting, maxComplexity)
  {
    signatures := [[Empty]];
    interesting := [[]];
    var n := 0;
    while n < maxComplexity
      invariant 0 <= n <= maxComplexity
      invariant Enumerated(signatures, interesting, n)
    {
      EnumeratedStep(signatures, interesting, n);
      signatures, interesting := MakeAlphaSignature(signatures, interesting, n);
      n := n + 1;
    }
  }
}
