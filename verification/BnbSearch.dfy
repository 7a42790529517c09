/** The depth-first search of branch-and-bound (`bnb_search` in bnb.rs) over a list of effective values. */
module BnbSearch {
  import opened Prelude

  const MAX_TRIES: nat := 1_000_000

  /** The sum of the values chosen among the first `k`. */
  function ChosenSum(vals: seq<nat>, mask: seq<bool>, k: nat): nat
    requires k <= |vals| && k <= |mask|
  {
    if k == 0 then 0 else ChosenSum(vals, mask, k - 1) + if mask[k - 1] then vals[k - 1] else 0
  }

  function SuffixSum(vals: seq<nat>, k: nat): nat
    requires k <= |vals|
    decreases |vals| - k
  {
    if k == |vals| then 0 else SuffixSum(vals, k + 1) + vals[k]
  }

  datatype Outcome = Outcome(stop: bool, found: Option<seq<bool>>, tries: nat)

  /** What the search returns when it stands at depth `|chosen|` with the running sum `sum`. */
  function SearchFrom(vals: seq<nat>, target: nat, hi: nat, chosen: seq<bool>, sum: nat, tries: nat): Outcome
    requires |chosen| <= |vals|
    decreases |vals| - |chosen|
  {
    var d := |chosen|;
    if tries >= MAX_TRIES then Outcome(true, None, tries)
    else if sum > hi then Outcome(false, None, tries + 1)
    else if sum >= target then Outcome(true, Some(chosen + Falses(|vals| - d)), tries + 1)
    else if d == |vals| || sum + SuffixSum(vals, d) < target then Outcome(false, None, tries + 1)
    else
      var inc := SearchFrom(vals, target, hi, chosen + [true], sum + vals[d], tries + 1);
      if inc.stop then inc else SearchFrom(vals, target, hi, chosen + [false], sum, inc.tries)
  }

  /** Where the search branches: include first, exclude only when that did not stop. */
  lemma SearchBranches(vals: seq<nat>, target: nat, hi: nat, chosen: seq<bool>, sum: nat, tries: nat)
    requires |chosen| < |vals| && tries < MAX_TRIES
    requires sum <= hi && sum < target && sum + SuffixSum(vals, |chosen|) >= target
    ensures var inc := SearchFrom(vals, target, hi, chosen + [true], sum + vals[|chosen|], tries + 1);
            SearchFrom(vals, target, hi, chosen, sum, tries)
            == if inc.stop then inc else SearchFrom(vals, target, hi, chosen + [false], sum, inc.tries)
  {
  }

  /** Where the search ends. */
  lemma SearchEnds(vals: seq<nat>, target: nat, hi: nat, chosen: seq<bool>, sum: nat, tries: nat)
    requires |chosen| <= |vals|
    ensures tries >= MAX_TRIES ==> SearchFrom(vals, target, hi, chosen, sum, tries) == Outcome(true, None, tries)
    ensures tries < MAX_TRIES
            && (sum > hi || (sum < target && (|chosen| == |vals| || sum + SuffixSum(vals, |chosen|) < target))) ==>
              SearchFrom(vals, target, hi, chosen, sum, tries) == Outcome(false, None, tries + 1)
    ensures tries < MAX_TRIES && target <= sum <= hi ==>
              SearchFrom(vals, target, hi, chosen, sum, tries)
              == Outcome(true, Some(chosen + Falses(|vals| - |chosen|)), tries + 1)
  {
  }

  /** The variables `bnb_search` reaches through `&mut`. */
  class SearchState {
    var selected: seq<bool>
    var currentSum: nat
    var result: Option<seq<bool>>
    var tries: nat

    constructor (n: nat)
      ensures selected == Falses(n) && currentSum == 0 && result == None && tries == 0
    {
      selected, currentSum, result, tries := Falses(n), 0, None, 0;
    }

    /** A `false` return restores `selected` and `currentSum`. */
    method Search(depth: nat, vals: seq<nat>, suffixSums: seq<nat>, target: nat, costOfChange: nat) returns (stop: bool)
      requires depth <= |vals| == |selected| && |suffixSums| == |vals| + 1
      requires forall i :: 0 <= i <= |vals| ==> suffixSums[i] == SuffixSum(vals, i)
      requires forall i :: depth <= i < |vals| ==> !selected[i]
      requires result == None
      modifies this
      ensures |selected| == |vals|
      ensures Outcome(stop, result, tries)
              == SearchFrom(vals, target, target + costOfChange, old(selected)[..depth], old(currentSum), old(tries))
      ensures !stop ==> result == None && selected == old(selected) && currentSum == old(currentSum)
      decreases |vals| - depth
    {
      hide SearchFrom, SuffixSum;
      SearchEnds(vals, target, target + costOfChange, selected[..depth], currentSum, tries);
      if tries >= MAX_TRIES {
        return true;
      }
      tries := tries + 1;
      if currentSum > target + costOfChange {
        return false;
      }
      if currentSum >= target {
        assert selected == selected[..depth] + Falses(|vals| - depth);
        result := Some(selected);
        return true;
      }
      if depth >= |vals| {
        return false;
      }
      if currentSum + suffixSums[depth] < target {
        return false;
      }
      SearchBranches(vals, target, target + costOfChange, selected[..depth], currentSum, tries - 1);
      ghost var before := selected;
      selected := selected[depth := true];
      currentSum := currentSum + vals[depth];
      assert selected[..depth + 1] == before[..depth] + [true];
      stop := Search(depth + 1, vals, suffixSums, target, costOfChange);
      if stop {
        return true;
      }
      selected := selected[depth := false];
      currentSum := currentSum - vals[depth];
      assert selected == before;
      assert selected[..depth + 1] == before[..depth] + [false];
      stop := Search(depth + 1, vals, suffixSums, target, costOfChange);
    }
  }

  // ----- what the search is for -----

  /** A solution: its sum is in the window, and each value was taken only while those before it fell short. */
  ghost predicate Solution(vals: seq<nat>, target: nat, hi: nat, mask: seq<bool>) {
    && |mask| == |vals|
    && target <= ChosenSum(vals, mask, |vals|) <= hi
    && forall k :: 0 <= k < |vals| && mask[k] ==> ChosenSum(vals, mask, k) < target
  }

  /** Include-before-exclude order: at the first difference, `a` includes. */
  ghost predicate Before(a: seq<bool>, b: seq<bool>) {
    exists k :: 0 <= k < |a| && k < |b| && a[..k] == b[..k] && a[k] && !b[k]
  }

  ghost predicate First(vals: seq<nat>, target: nat, hi: nat, chosen: seq<bool>, mask: seq<bool>) {
    && Solution(vals, target, hi, mask) && chosen <= mask
    && forall c :: Solution(vals, target, hi, c) && chosen <= c && c != mask ==> Before(mask, c)
  }

  lemma {:induction false} SumGrows(vals: seq<nat>, mask: seq<bool>, j: nat, k: nat)
    requires j <= k <= |vals| && k <= |mask|
    ensures ChosenSum(vals, mask, j) <= ChosenSum(vals, mask, k)
  {
    if j < k {
      SumGrows(vals, mask, j, k - 1);
    }
  }

  lemma {:induction false} SumBounded(vals: seq<nat>, mask: seq<bool>, k: nat)
    requires k <= |vals| == |mask|
    ensures ChosenSum(vals, mask, |vals|) <= ChosenSum(vals, mask, k) + SuffixSum(vals, k)
    decreases |vals| - k
  {
    if k < |vals| {
      SumBounded(vals, mask, k + 1);
    }
  }

  lemma {:induction false} SumOfPrefix(vals: seq<nat>, a: seq<bool>, b: seq<bool>, k: nat)
    requires k <= |vals| && k <= |a| && k <= |b| && a[..k] == b[..k]
    ensures ChosenSum(vals, a, k) == ChosenSum(vals, b, k)
  {
    if k > 0 {
      assert a[..k - 1] == a[..k][..k - 1] == b[..k - 1];
      assert a[k - 1] == a[..k][k - 1] == b[k - 1];
      SumOfPrefix(vals, a, b, k - 1);
    }
  }

  lemma {:induction false} NothingMoreChosen(vals: seq<nat>, mask: seq<bool>, d: nat, k: nat)
    requires d <= k <= |vals| == |mask|
    requires forall i :: d <= i < k ==> !mask[i]
    ensures ChosenSum(vals, mask, k) == ChosenSum(vals, mask, d)
  {
    if d < k {
      NothingMoreChosen(vals, mask, d, k - 1);
    }
  }

  /** The prefix `chosen` is one the search can stand at. */
  ghost predicate OnPath(vals: seq<nat>, target: nat, chosen: seq<bool>, sum: nat) {
    && |chosen| <= |vals|
    && sum == ChosenSum(vals, chosen, |chosen|)
    && forall k :: 0 <= k < |chosen| && chosen[k] ==> ChosenSum(vals, chosen, k) < target
  }

  lemma StepOnPath(vals: seq<nat>, target: nat, chosen: seq<bool>, sum: nat, b: bool)
    requires OnPath(vals, target, chosen, sum) && |chosen| < |vals| && sum < target
    ensures OnPath(vals, target, chosen + [b], if b then sum + vals[|chosen|] else sum)
  {
    var next := chosen + [b];
    forall k | 0 <= k <= |chosen| ensures ChosenSum(vals, next, k) == ChosenSum(vals, chosen, k) {
      assert next[..k] == chosen[..k];
      SumOfPrefix(vals, next, chosen, k);
    }
  }

  lemma TooMuch(vals: seq<nat>, target: nat, hi: nat, chosen: seq<bool>, sum: nat, c: seq<bool>)
    requires OnPath(vals, target, chosen, sum) && chosen <= c && |c| == |vals|
    requires sum > hi || (sum < target && (|chosen| == |vals| || sum + SuffixSum(vals, |chosen|) < target))
    ensures !Solution(vals, target, hi, c)
  {
    assert chosen[..|chosen|] == chosen == c[..|chosen|];
    SumOfPrefix(vals, chosen, c, |chosen|);
    SumGrows(vals, c, |chosen|, |vals|);
    SumBounded(vals, c, |chosen|);
  }

  lemma Enough(vals: seq<nat>, target: nat, hi: nat, chosen: seq<bool>, sum: nat)
    requires OnPath(vals, target, chosen, sum) && target <= sum <= hi
    ensures First(vals, target, hi, chosen, chosen + Falses(|vals| - |chosen|))
  {
    var d := |chosen|;
    var mask := chosen + Falses(|vals| - d);
    forall k | 0 <= k <= d ensures ChosenSum(vals, mask, k) == ChosenSum(vals, chosen, k) {
      assert mask[..k] == chosen[..k];
      SumOfPrefix(vals, mask, chosen, k);
    }
    NothingMoreChosen(vals, mask, d, |vals|);
    forall c | Solution(vals, target, hi, c) && chosen <= c ensures c == mask {
      assert c[..d] == chosen[..d];
      SumOfPrefix(vals, c, chosen, d);
      forall k | d <= k < |vals| ensures !c[k] {
        SumGrows(vals, c, d, k);
      }
      assert forall k :: 0 <= k < d ==> c[k] == c[..d][k] == chosen[k];
    }
  }

  /** Every completion of `chosen` continues with an include or an exclude. */
  lemma Continues(chosen: seq<bool>, c: seq<bool>)
    requires chosen <= c && |chosen| < |c|
    ensures chosen + [c[|chosen|]] <= c
  {
  }

  lemma IncludeComesFirst(chosen: seq<bool>, a: seq<bool>, c: seq<bool>)
    requires chosen + [true] <= a && chosen + [false] <= c
    ensures Before(a, c)
  {
    var d := |chosen|;
    assert a[..d] == (chosen + [true])[..d] == chosen;
    assert c[..d] == (chosen + [false])[..d] == chosen;
    assert a[d] == (chosen + [true])[d] && c[d] == (chosen + [false])[d];
  }

  /** The search, prunings and limit included: what it finds is the first solution in include-before-exclude
      order; a `false` return means there is none; and without a find it stops only at the limit. */
  lemma {:induction false} SearchIsExact(vals: seq<nat>, target: nat, hi: nat, chosen: seq<bool>, sum: nat, tries: nat)
    requires OnPath(vals, target, chosen, sum) && tries <= MAX_TRIES
    ensures var o := SearchFrom(vals, target, hi, chosen, sum, tries);
            && o.tries <= MAX_TRIES
            && (o.found.Some? ==> First(vals, target, hi, chosen, o.found.value))
            && (o.found.None? && o.stop ==> o.tries == MAX_TRIES)
            && (!o.stop ==> o.found.None? && forall c :: Solution(vals, target, hi, c) ==> !(chosen <= c))
    decreases |vals| - |chosen|
  {
    var d := |chosen|;
    if tries >= MAX_TRIES {
    } else if sum > hi || (sum < target && (d == |vals| || sum + SuffixSum(vals, d) < target)) {
      forall c | Solution(vals, target, hi, c) ensures !(chosen <= c) {
        if chosen <= c { TooMuch(vals, target, hi, chosen, sum, c); }
      }
    } else if sum >= target {
      Enough(vals, target, hi, chosen, sum);
    } else {
      BranchIsExact(vals, target, hi, chosen, sum, tries);
    }
  }

  lemma {:induction false} BranchIsExact(vals: seq<nat>, target: nat, hi: nat, chosen: seq<bool>, sum: nat, tries: nat)
    requires OnPath(vals, target, chosen, sum) && tries < MAX_TRIES
    requires sum < target && sum <= hi && |chosen| < |vals| && sum + SuffixSum(vals, |chosen|) >= target
    ensures var o := SearchFrom(vals, target, hi, chosen, sum, tries);
            && o.tries <= MAX_TRIES
            && (o.found.Some? ==> First(vals, target, hi, chosen, o.found.value))
            && (o.found.None? && o.stop ==> o.tries == MAX_TRIES)
            && (!o.stop ==> o.found.None? && forall c :: Solution(vals, target, hi, c) ==> !(chosen <= c))
    decreases |vals| - |chosen|, 0
  {
    var d := |chosen|;
    StepOnPath(vals, target, chosen, sum, true);
    StepOnPath(vals, target, chosen, sum, false);
    SearchIsExact(vals, target, hi, chosen + [true], sum + vals[d], tries + 1);
    var inc := SearchFrom(vals, target, hi, chosen + [true], sum + vals[d], tries + 1);
    forall c | Solution(vals, target, hi, c) && chosen <= c
      ensures chosen + [true] <= c || chosen + [false] <= c
    {
      Continues(chosen, c);
    }
    if inc.found.Some? {
      FirstOfInclude(vals, target, hi, chosen, inc.found.value);
    } else if !inc.stop {
      SearchIsExact(vals, target, hi, chosen + [false], sum, inc.tries);
      var exc := SearchFrom(vals, target, hi, chosen + [false], sum, inc.tries);
      if exc.found.Some? {
        assert chosen <= chosen + [false] <= exc.found.value;
      }
    }
  }

  lemma FirstOfInclude(vals: seq<nat>, target: nat, hi: nat, chosen: seq<bool>, mask: seq<bool>)
    requires First(vals, target, hi, chosen + [true], mask) && |chosen| < |vals|
    ensures First(vals, target, hi, chosen, mask)
  {
    assert chosen <= chosen + [true] <= mask;
    forall c | Solution(vals, target, hi, c) && chosen <= c && c != mask ensures Before(mask, c) {
      Continues(chosen, c);
      if !c[|chosen|] {
        IncludeComesFirst(chosen, mask, c);
      }
    }
  }

  // ----- the limit -----

  /** Whether a search without limit finds a solution below this place, and how many places it visits until then. */
  function Visit(vals: seq<nat>, target: nat, hi: nat, chosen: seq<bool>, sum: nat): (bool, nat)
    requires |chosen| <= |vals|
    decreases |vals| - |chosen|
  {
    var d := |chosen|;
    if sum > hi then (false, 1)
    else if sum >= target then (true, 1)
    else if d == |vals| || sum + SuffixSum(vals, d) < target then (false, 1)
    else
      var inc := Visit(vals, target, hi, chosen + [true], sum + vals[d]);
      if inc.0 then (true, 1 + inc.1)
      else
        var exc := Visit(vals, target, hi, chosen + [false], sum);
        (exc.0, 1 + inc.1 + exc.1)
  }

  ghost predicate SomeSolution(vals: seq<nat>, target: nat, hi: nat, chosen: seq<bool>) {
    exists c :: Solution(vals, target, hi, c) && chosen <= c
  }

  lemma {:induction false} VisitFindsExactly(vals: seq<nat>, target: nat, hi: nat, chosen: seq<bool>, sum: nat)
    requires OnPath(vals, target, chosen, sum)
    ensures Visit(vals, target, hi, chosen, sum).0 <==> SomeSolution(vals, target, hi, chosen)
    decreases |vals| - |chosen|
  {
    hide Solution;
    var d := |chosen|;
    if sum > hi || (sum < target && (d == |vals| || sum + SuffixSum(vals, d) < target)) {
      forall c | Solution(vals, target, hi, c) ensures !(chosen <= c) {
        if chosen <= c {
          SolutionLength(vals, target, hi, c);
          TooMuch(vals, target, hi, chosen, sum, c);
        }
      }
    } else if sum >= target {
      Enough(vals, target, hi, chosen, sum);
    } else {
      StepOnPath(vals, target, chosen, sum, true);
      StepOnPath(vals, target, chosen, sum, false);
      hide OnPath;
      VisitFindsExactly(vals, target, hi, chosen + [true], sum + vals[d]);
      VisitFindsExactly(vals, target, hi, chosen + [false], sum);
      EitherWay(vals, target, hi, chosen);
    }
  }

  lemma SolutionLength(vals: seq<nat>, target: nat, hi: nat, c: seq<bool>)
    requires Solution(vals, target, hi, c)
    ensures |c| == |vals|
  {
  }

  lemma EitherWay(vals: seq<nat>, target: nat, hi: nat, chosen: seq<bool>)
    requires |chosen| < |vals|
    ensures SomeSolution(vals, target, hi, chosen)
            <==> SomeSolution(vals, target, hi, chosen + [true]) || SomeSolution(vals, target, hi, chosen + [false])
  {
    hide Solution;
    if c :| Solution(vals, target, hi, c) && chosen <= c {
      SolutionLength(vals, target, hi, c);
      Continues(chosen, c);
      assert c[|chosen|] == true || c[|chosen|] == false;
      assert chosen + [true] <= c || chosen + [false] <= c;
    }
    if c :| Solution(vals, target, hi, c) && chosen + [true] <= c {
      assert chosen <= chosen + [true] <= c;
    }
    if c :| Solution(vals, target, hi, c) && chosen + [false] <= c {
      assert chosen <= chosen + [false] <= c;
    }
  }

  /** The limited search is the unlimited one as long as the places suffice, and stops without a find otherwise. */
  lemma {:induction false} SearchIsVisit(vals: seq<nat>, target: nat, hi: nat, chosen: seq<bool>, sum: nat, tries: nat)
    requires |chosen| <= |vals| && tries <= MAX_TRIES
    ensures var o, v := SearchFrom(vals, target, hi, chosen, sum, tries), Visit(vals, target, hi, chosen, sum);
            if tries + v.1 <= MAX_TRIES then o.tries == tries + v.1 && (o.stop <==> v.0) && (o.found.Some? <==> v.0)
            else o == Outcome(true, None, MAX_TRIES)
    ensures Visit(vals, target, hi, chosen, sum).1 >= 1
    decreases |vals| - |chosen|
  {
    var d := |chosen|;
    if tries < MAX_TRIES && sum <= hi && sum < target && d < |vals| && sum + SuffixSum(vals, d) >= target {
      SearchIsVisit(vals, target, hi, chosen + [true], sum + vals[d], tries + 1);
      var inc := SearchFrom(vals, target, hi, chosen + [true], sum + vals[d], tries + 1);
      if !inc.stop {
        SearchIsVisit(vals, target, hi, chosen + [false], sum, inc.tries);
      }
    }
    if tries == MAX_TRIES {
      VisitsSome(vals, target, hi, chosen, sum);
    }
  }

  lemma VisitsSome(vals: seq<nat>, target: nat, hi: nat, chosen: seq<bool>, sum: nat)
    requires |chosen| <= |vals|
    ensures Visit(vals, target, hi, chosen, sum).1 >= 1
  {
  }

  lemma BeforeIsStrict(a: seq<bool>, b: seq<bool>)
    requires Before(a, b)
    ensures !Before(b, a)
  {
    var k :| 0 <= k < |a| && k < |b| && a[..k] == b[..k] && a[k] && !b[k];
    forall j | 0 <= j < |b| && j < |a| && b[j] && !a[j] ensures b[..j] != a[..j] {
      if j < k {
        assert false;
      }
      assert j > k;
      assert b[..j][k] != a[..j][k];
    }
  }

  /** What the whole search finds: a mask is found exactly when it is the first solution in include-before-exclude order
      and the places visited up to it are within the limit. */
  lemma SearchFindsExactly(vals: seq<nat>, target: nat, hi: nat, mask: seq<bool>)
    ensures SearchFrom(vals, target, hi, [], 0, 0).found == Some(mask)
            <==> First(vals, target, hi, [], mask) && Visit(vals, target, hi, [], 0).1 <= MAX_TRIES
  {
    SearchIsExact(vals, target, hi, [], 0, 0);
    SearchIsVisit(vals, target, hi, [], 0, 0);
    VisitFindsExactly(vals, target, hi, [], 0);
    hide Before, Solution, SearchFrom, Visit;
    var o := SearchFrom(vals, target, hi, [], 0, 0);
    if First(vals, target, hi, [], mask) && Visit(vals, target, hi, [], 0).1 <= MAX_TRIES {
      assert [] <= mask;
      if o.found.value != mask {
        BeforeIsStrict(mask, o.found.value);
      }
    }
  }

  /** No solution, no subset: cutting any in-window choice at the point where it reaches the target leaves a
      solution. */
  lemma TrimToSolution(vals: seq<nat>, target: nat, hi: nat, mask: seq<bool>) returns (c: seq<bool>)
    requires |mask| == |vals| && target <= ChosenSum(vals, mask, |vals|) <= hi
    ensures Solution(vals, target, hi, c)
  {
    var d := 0;
    while ChosenSum(vals, mask, d) < target
      invariant d <= |vals|
      invariant forall k :: 0 <= k < d ==> ChosenSum(vals, mask, k) < target
      decreases |vals| - d
    {
      d := d + 1;
    }
    SumGrows(vals, mask, d, |vals|);
    var chosen := mask[..d];
    forall k | 0 <= k <= d ensures ChosenSum(vals, chosen, k) == ChosenSum(vals, mask, k) {
      assert chosen[..k] == mask[..k];
      SumOfPrefix(vals, chosen, mask, k);
    }
    Enough(vals, target, hi, chosen, ChosenSum(vals, mask, d));
    c := chosen + Falses(|vals| - d);
  }
}
