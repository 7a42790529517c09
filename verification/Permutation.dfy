/** Reordering a list changes none of the totals taken over it. */
module Permutation {
  import opened Weight

  function Map<A, B>(f: A -> B, xs: seq<A>): (r: seq<B>)
    ensures |r| == |xs| && forall i :: 0 <= i < |xs| ==> r[i] == f(xs[i])
  {
    seq(|xs|, i requires 0 <= i < |xs| => f(xs[i]))
  }

  lemma TakeOut<A>(xs: seq<A>, k: nat)
    requires k < |xs|
    ensures multiset(xs) == multiset(xs[..k] + xs[k + 1..]) + multiset{xs[k]}
  {
    assert xs == xs[..k] + [xs[k]] + xs[k + 1..];
  }

  /** Where a reordering of the list keeps its last element. */
  lemma Partner<A>(xs: seq<A>, ys: seq<A>) returns (k: nat)
    requires multiset(xs) == multiset(ys) && xs != []
    ensures k < |ys| && ys[k] == xs[|xs| - 1]
    ensures multiset(xs[..|xs| - 1]) == multiset(ys[..k] + ys[k + 1..])
  {
    var n := |xs| - 1;
    assert xs == xs[..n] + [xs[n]];
    assert xs[n] in multiset(ys);
    k :| 0 <= k < |ys| && ys[k] == xs[n];
    TakeOut(ys, k);
    assert multiset(xs[..n]) == multiset(xs) - multiset{xs[n]};
    assert multiset(ys[..k] + ys[k + 1..]) == multiset(ys) - multiset{ys[k]};
  }

  lemma {:induction false} MapPermutes<A, B>(f: A -> B, xs: seq<A>, ys: seq<A>)
    requires multiset(xs) == multiset(ys)
    ensures multiset(Map(f, xs)) == multiset(Map(f, ys))
    decreases |xs|
  {
    if xs == [] {
      assert |multiset(ys)| == 0;
    } else {
      var n := |xs| - 1;
      var k := Partner(xs, ys);
      var rest := ys[..k] + ys[k + 1..];
      MapPermutes(f, xs[..n], rest);
      TakeOut(Map(f, ys), k);
      assert Map(f, ys)[..k] + Map(f, ys)[k + 1..] == Map(f, rest);
      assert Map(f, xs) == Map(f, xs[..n]) + [f(xs[n])];
    }
  }

  lemma {:induction false} SumWithout(xs: seq<nat>, k: nat)
    requires k < |xs|
    ensures Sum(xs) == Sum(xs[..k] + xs[k + 1..]) + xs[k]
  {
    var n := |xs| - 1;
    var rest := xs[..k] + xs[k + 1..];
    if k == n {
      assert rest == xs[..n];
    } else {
      SumWithout(xs[..n], k);
      assert rest[..n - 1] == xs[..n][..k] + xs[..n][k + 1..];
    }
  }

  lemma {:induction false} SumPermutes(xs: seq<nat>, ys: seq<nat>)
    requires multiset(xs) == multiset(ys)
    ensures Sum(xs) == Sum(ys)
    decreases |xs|
  {
    if xs == [] {
      assert |multiset(ys)| == 0;
    } else {
      var n := |xs| - 1;
      var k := Partner(xs, ys);
      SumPermutes(xs[..n], ys[..k] + ys[k + 1..]);
      SumWithout(ys, k);
    }
  }

  lemma TotalPermutes<A>(f: A -> nat, xs: seq<A>, ys: seq<A>)
    requires multiset(xs) == multiset(ys)
    ensures Sum(Map(f, xs)) == Sum(Map(f, ys))
  {
    MapPermutes(f, xs, ys);
    SumPermutes(Map(f, xs), Map(f, ys));
  }

  lemma SumAppend(xs: seq<nat>, x: nat)
    ensures Sum(xs + [x]) == Sum(xs) + x
  {
    assert (xs + [x])[..|xs|] == xs;
  }

  /** A list without repetition stays without repetition when part of it is taken or it is reordered. */
  ghost predicate Distinct<A>(xs: seq<A>) {
    forall i, j :: 0 <= i < j < |xs| ==> xs[i] != xs[j]
  }

  lemma {:induction false} DistinctCounts<A>(xs: seq<A>)
    ensures Distinct(xs) <==> forall x :: x in multiset(xs) ==> multiset(xs)[x] == 1
  {
    if xs != [] {
      var n := |xs| - 1;
      DistinctCounts(xs[..n]);
      assert xs == xs[..n] + [xs[n]];
      if Distinct(xs) {
        forall x | x in multiset(xs) ensures multiset(xs)[x] == 1 {
          if x in xs[..n] {
            assert x in multiset(xs[..n]);
            var i :| 0 <= i < n && xs[i] == x;
            assert x != xs[n];
          }
        }
      } else {
        var i, j :| 0 <= i < j < |xs| && xs[i] == xs[j];
        if j == n {
          assert xs[..n][i] == xs[n] && xs[n] in multiset(xs[..n]);
          assert multiset(xs)[xs[n]] >= 2;
        } else {
          assert xs[..n][i] == xs[..n][j];
          var x :| x in multiset(xs[..n]) && multiset(xs[..n])[x] != 1;
          assert multiset(xs)[x] >= 2;
        }
      }
    }
  }

  lemma DistinctPart<A>(xs: seq<A>, ys: seq<A>)
    requires Distinct(ys) && multiset(xs) <= multiset(ys)
    ensures Distinct(xs)
  {
    DistinctCounts(xs);
    DistinctCounts(ys);
    forall x | x in multiset(xs) ensures multiset(xs)[x] == 1 {
      assert multiset(xs)[x] <= multiset(ys)[x];
    }
  }

  // ----- the weight of a transaction does not depend on the order of its inputs and outputs -----

  function SegwitUnit(t: ScriptType): nat {
    if IsSegwit(t) then 1 else 0
  }

  lemma {:induction false} WeightsAsTotals(types: seq<ScriptType>)
    ensures InputWeights(types) == Sum(Map(InputWeight, types))
    ensures SegwitCount(types) == Sum(Map(SegwitUnit, types))
  {
    if types != [] {
      var n := |types| - 1;
      WeightsAsTotals(types[..n]);
      assert Map(InputWeight, types)[..n] == Map(InputWeight, types[..n]);
      assert Map(SegwitUnit, types)[..n] == Map(SegwitUnit, types[..n]);
    }
  }

  lemma WeightPermutes(a: seq<ScriptType>, b: seq<ScriptType>, ws: seq<nat>)
    requires multiset(a) == multiset(b)
    ensures TransactionWeight(a, ws) == TransactionWeight(b, ws)
  {
    WeightsAsTotals(a);
    WeightsAsTotals(b);
    TotalPermutes(InputWeight, a, b);
    TotalPermutes(SegwitUnit, a, b);
    assert |multiset(a)| == |multiset(b)|;
  }

  lemma OutputsPermuteWeight(types: seq<ScriptType>, a: seq<nat>, b: seq<nat>)
    requires multiset(a) == multiset(b)
    ensures TransactionWeight(types, a) == TransactionWeight(types, b)
  {
    SumPermutes(a, b);
    assert |multiset(a)| == |multiset(b)|;
  }
}
