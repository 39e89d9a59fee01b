/** First-seen numbering of values (preProcessing.py, `GroupCommon`): each
    distinct value gets the next number the first time it appears. */
module Numbering {

  /** The numbers given to the distinct values of `xs`, in first-seen
      order. */
  function Numbering<K(==)>(xs: seq<K>): (m: map<K, nat>)
    ensures forall i :: 0 <= i < |xs| ==> xs[i] in m
    decreases |xs|
  {
    if xs == [] then map[]
    else
      var init := xs[..|xs| - 1];
      var m := Numbering(init);
      var k := xs[|xs| - 1];
      assert forall i :: 0 <= i < |init| ==> xs[i] == init[i];
      if k in m then m else m[k := |m|]
  }

  /** Only the values of `xs` are numbered, each below the count of
      distinct values, and no two alike. */
  lemma {:induction false} NumberingFacts<K>(xs: seq<K>)
    ensures forall k :: k in Numbering(xs) ==> k in xs
    ensures forall k :: k in Numbering(xs) ==> Numbering(xs)[k] < |Numbering(xs)|
    ensures forall a, b :: a in Numbering(xs) && b in Numbering(xs) && Numbering(xs)[a] == Numbering(xs)[b] ==> a == b
    decreases |xs|
  {
    if xs != [] {
      var init := xs[..|xs| - 1];
      NumberingFacts(init);
      var m := Numbering(init);
      var k := xs[|xs| - 1];
      assert forall i :: 0 <= i < |init| ==> xs[i] == init[i];
      if k !in m {
        assert |m[k := |m|]| == |m| + 1;
      }
    }
  }

  /** The numbers are exactly `0 .. k-1`. */
  lemma {:induction false} NumberingDense<K>(xs: seq<K>, n: nat)
    requires n < |Numbering(xs)|
    ensures exists k :: k in Numbering(xs) && Numbering(xs)[k] == n
    decreases |xs|
  {
    var init := xs[..|xs| - 1];
    var m := Numbering(init);
    var k := xs[|xs| - 1];
    NumberingFacts(init);
    if k !in m {
      assert |m[k := |m|]| == |m| + 1;
    }
    if k in m || n < |m| {
      NumberingDense(init, n);
      var w :| w in m && m[w] == n;
      assert w in Numbering(xs) && Numbering(xs)[w] == n;
    } else {
      assert Numbering(xs)[k] == n;
    }
  }

  /** One more value: numbered next if it is new. */
  lemma NumberingStep<K>(xs: seq<K>, i: nat)
    requires i < |xs|
    ensures var m := Numbering(xs[..i]);
      Numbering(xs[..i + 1]) == if xs[i] in m then m else m[xs[i] := |m|]
  {
    assert xs[..i + 1][..i] == xs[..i];
  }

  /** A value keeps the number it was first given. */
  lemma {:induction false} NumberingStable<K>(xs: seq<K>, i: nat, k: K)
    requires i <= |xs| && k in Numbering(xs[..i])
    ensures k in Numbering(xs) && Numbering(xs)[k] == Numbering(xs[..i])[k]
    decreases |xs| - i
  {
    if i < |xs| {
      NumberingStep(xs, i);
      NumberingStable(xs, i + 1, k);
    } else {
      assert xs[..i] == xs;
    }
  }

  /** At its first occurrence, a value gets the number of distinct values
      seen before it. */
  lemma FirstOccurrence<K>(xs: seq<K>, p: nat)
    requires p < |xs| && xs[p] !in xs[..p]
    ensures Numbering(xs)[xs[p]] == |Numbering(xs[..p])|
  {
    NumberingFacts(xs[..p]);
    NumberingStep(xs, p);
    NumberingStable(xs, p + 1, xs[p]);
  }

  /** The loop over the distinct values: each one is numbered when first
      met. */
  method Number<K(==)>(xs: seq<K>) returns (ids: seq<nat>)
    ensures |ids| == |xs|
    ensures forall p :: 0 <= p < |xs| ==> ids[p] == Numbering(xs)[xs[p]]
  {
    var seen: map<K, nat> := map[];
    ids := [];
    for i := 0 to |xs|
      invariant seen == Numbering(xs[..i])
      invariant |ids| == i
      invariant forall p :: 0 <= p < i ==> xs[p] in seen && ids[p] == seen[xs[p]]
    {
      NumberingStep(xs, i);
      if xs[i] !in seen {
        seen := seen[xs[i] := |seen|];
      }
      ids := ids + [seen[xs[i]]];
    }
    assert xs[..|xs|] == xs;
  }

  /** The first position holding `x`. */
  function IndexOf<K(==)>(xs: seq<K>, x: K): (r: nat)
    requires x in xs
    ensures r < |xs| && xs[r] == x
    ensures forall q :: 0 <= q < r ==> xs[q] != x
  {
    if xs[0] == x then 0
    else
      var r := IndexOf(xs[1..], x);
      assert forall q :: 1 <= q <= r ==> xs[q] == xs[1..][q - 1];
      1 + r
  }

  /** `temp_ID` after the group minimum: each position replaced by the
      first position holding an equal value. */
  function FirstPositions<K(==)>(xs: seq<K>): (ts: seq<nat>)
    ensures |ts| == |xs|
    ensures forall p :: 0 <= p < |xs| ==> ts[p] <= p && xs[ts[p]] == xs[p]
    ensures forall p, q :: 0 <= p < |xs| && 0 <= q < ts[p] ==> xs[q] != xs[p]
  {
    seq(|xs|, p requires 0 <= p < |xs| => IndexOf(xs, xs[p]))
  }

  /** Two positions share their first position exactly when they hold
      equal values. */
  lemma FirstPositionsAgree<K>(xs: seq<K>, p: nat, q: nat)
    requires p < |xs| && q < |xs|
    ensures FirstPositions(xs)[p] == FirstPositions(xs)[q] <==> xs[p] == xs[q]
  {
    var ts := FirstPositions(xs);
    assert xs[ts[p]] == xs[p] && xs[ts[q]] == xs[q];
    assert xs[p] == xs[q] ==> !(ts[p] < ts[q]) && !(ts[q] < ts[p]);
  }

  /** Two sequences whose positions hold equal values at the same places. */
  ghost predicate SamePattern<K, L>(xs: seq<K>, ys: seq<L>) {
    |xs| == |ys| && forall p, q :: 0 <= p < |xs| && 0 <= q < |xs| ==> (xs[p] == xs[q] <==> ys[p] == ys[q])
  }

  lemma FirstPositionsPattern<K>(xs: seq<K>)
    ensures SamePattern(xs, FirstPositions(xs))
  {
    forall p, q | 0 <= p < |xs| && 0 <= q < |xs|
      ensures xs[p] == xs[q] <==> FirstPositions(xs)[p] == FirstPositions(xs)[q]
    {
      FirstPositionsAgree(xs, p, q);
    }
  }

  /** A value is numbered exactly when it occurs. */
  lemma NumberingMembers<K>(xs: seq<K>, x: K)
    ensures x in Numbering(xs) <==> x in xs
  {
    NumberingFacts(xs);
  }

  /** The first `i` values of `xs` and of `ys` are numbered alike: as
      many numbers, and the same number at each position. */
  ghost predicate NumberedAlike<K, L>(xs: seq<K>, ys: seq<L>, i: nat)
    requires i <= |xs| && i <= |ys|
  {
    && |Numbering(xs[..i])| == |Numbering(ys[..i])|
    && forall p :: 0 <= p < i ==> Numbering(xs[..i])[xs[p]] == Numbering(ys[..i])[ys[p]]
  }

  /** One step of the correspondence between two numberings of sequences
      with the same pattern. */
  lemma PatternStep<K, L>(xs: seq<K>, ys: seq<L>, j: nat)
    requires SamePattern(xs, ys) && j < |xs|
    requires NumberedAlike(xs, ys, j)
    ensures NumberedAlike(xs, ys, j + 1)
  {
    var m, n := Numbering(xs[..j]), Numbering(ys[..j]);
    NumberingStep(xs, j);
    NumberingStep(ys, j);
    NumberingMembers(xs[..j], xs[j]);
    NumberingMembers(ys[..j], ys[j]);
    assert forall p :: 0 <= p < j ==> xs[p] == xs[..j][p] && ys[p] == ys[..j][p];
    if xs[j] in m {
      var q :| 0 <= q < j && xs[..j][q] == xs[j];
      assert ys[q] == ys[j];
    } else {
      assert ys[j] !in n by {
        forall q | 0 <= q < j ensures ys[..j][q] != ys[j] {
          assert xs[q] != xs[j];
        }
      }
      assert |m[xs[j] := |m|]| == |m| + 1;
      assert |n[ys[j] := |n|]| == |n| + 1;
      assert forall p :: 0 <= p < j ==> xs[p] != xs[j] && ys[p] != ys[j];
    }
  }

  /** Sequences with the same pattern are numbered alike. */
  lemma {:induction false} PatternNumbering<K, L>(xs: seq<K>, ys: seq<L>, i: nat)
    requires SamePattern(xs, ys) && i <= |xs|
    ensures NumberedAlike(xs, ys, i)
  {
    if i > 0 {
      PatternNumbering(xs, ys, i - 1);
      PatternStep(xs, ys, i - 1);
    }
  }

  /** Numbering the first positions numbers the values themselves. */
  lemma NumberingFirstPositions<K>(xs: seq<K>, p: nat)
    requires p < |xs|
    ensures Numbering(FirstPositions(xs))[FirstPositions(xs)[p]] == Numbering(xs)[xs[p]]
  {
    FirstPositionsPattern(xs);
    PatternNumbering(xs, FirstPositions(xs), |xs|);
    assert xs[..|xs|] == xs && FirstPositions(xs)[..|xs|] == FirstPositions(xs);
  }
}
