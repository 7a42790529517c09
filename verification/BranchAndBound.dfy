/** Branch-and-bound coin selection (bnb.rs) around the search: which coins enter it, in which order,
    and what becomes of the coins it finds. */
module BranchAndBound {
  import opened Prelude
  import opened Weight
  import opened CoinSelection
  import opened Accumulative
  import opened BnbSearch
  import opened StableSort
  import opened Permutation

  /** The effective value of a coin: its amount less the fee of spending it. */
  function Value(rate: real, c: Coin): nat {
    if c.amount > InputFee(rate, c) then c.amount - InputFee(rate, c) else 0
  }

  function Values(rate: real, coins: seq<Coin>): seq<nat> {
    seq(|coins|, i requires 0 <= i < |coins| => Value(rate, coins[i]))
  }

  function ValueSum(rate: real, coins: seq<Coin>): nat {
    if coins == [] then 0 else ValueSum(rate, coins[..|coins| - 1]) + Value(rate, coins[|coins| - 1])
  }

  /** The coins with a positive effective value. */
  function Positive(rate: real, coins: seq<Coin>): seq<Coin> {
    if coins == [] then []
    else
      var n := |coins| - 1;
      Positive(rate, coins[..n]) + if coins[n].amount > InputFee(rate, coins[n]) then [coins[n]] else []
  }

  /** The coins whose effective value alone does not overshoot. */
  function AtMost(rate: real, coins: seq<Coin>, hi: nat): seq<Coin> {
    if coins == [] then []
    else
      var n := |coins| - 1;
      AtMost(rate, coins[..n], hi) + if Value(rate, coins[n]) <= hi then [coins[n]] else []
  }

  function ByValue(rate: real): (Coin, Coin) -> bool {
    (a: Coin, b: Coin) => Value(rate, a) >= Value(rate, b)
  }

  /** What the effective values have to reach: the price of a transaction without inputs. */
  function Target(s: Spending): nat {
    Price([], s)
  }

  /** The upper end of the window: what a change output would add, its fee and the dust limit. */
  function UpperEnd(s: Spending): nat {
    OutputSum(s.outputs) + CalculateFee(s.feeRate, TransactionWeight([], OutputWeights(s.outputs))) + s.baseFee
    + CalculateFee(s.feeRate, OutputWeight(s.changeType)) + 546
  }

  lemma UpperEndIs(s: Spending)
    ensures UpperEnd(s) == Target(s) + CostOfChange(s)
  {
    hide CalculateFee;
    assert DustAmount(s.changeType) == 546;
  }

  function CostOfChange(s: Spending): nat {
    CalculateFee(s.feeRate, OutputWeight(s.changeType)) + DustAmount(s.changeType)
  }

  /** The list the search runs on. */
  function SearchSpace(coins: seq<Coin>, s: Spending): seq<Coin> {
    AtMost(s.feeRate, Sort(ByValue(s.feeRate), Positive(s.feeRate, coins)), Target(s) + CostOfChange(s))
  }

  function SearchOutcome(coins: seq<Coin>, s: Spending): Outcome {
    SearchFrom(Values(s.feeRate, SearchSpace(coins, s)), Target(s), Target(s) + CostOfChange(s), [], 0, 0)
  }

  /** The coins the search found, if it ran and found any. */
  function Found(coins: seq<Coin>, s: Spending): Option<seq<Coin>> {
    if SearchSpace(coins, s) == [] then None
    else
      SearchFindsMask(coins, s);
      var o := SearchOutcome(coins, s);
      if o.found.None? then None else Some(Pick(SearchSpace(coins, s), o.found.value, true))
  }

  /** `branch_and_bound` as a function of the coins. */
  function ExactMatch(coins: seq<Coin>, s: Spending): Option<Selection> {
    if RequiredOf(coins) != [] || Positive(s.feeRate, coins) == [] then None
    else if Target(s) == 0 then Some(Report([], FinalizeCoins([], s)))
    else
      var found := Found(coins, s);
      if found.None? || FinalizeCoins(found.value, s).CannotPay? then None
      else Some(Report(found.value, FinalizeCoins(found.value, s)))
  }

  lemma SearchFindsMask(coins: seq<Coin>, s: Spending)
    ensures var o := SearchOutcome(coins, s);
            o.found.Some? ==>
              First(Values(s.feeRate, SearchSpace(coins, s)), Target(s), Target(s) + CostOfChange(s), [], o.found.value)
  {
    SearchIsExact(Values(s.feeRate, SearchSpace(coins, s)), Target(s), Target(s) + CostOfChange(s), [], 0, 0);
  }

  // ----- the imperative selector -----

  method SuffixSums(vals: seq<nat>) returns (sums: seq<nat>)
    ensures |sums| == |vals| + 1
    ensures forall i :: 0 <= i <= |vals| ==> sums[i] == SuffixSum(vals, i)
  {
    var a := new nat[|vals| + 1](_ => 0);
    for i := |vals| downto 0
      invariant forall j :: i <= j <= |vals| ==> a[j] == SuffixSum(vals, j)
    {
      a[i] := a[i + 1] + vals[i];
    }
    sums := a[..];
  }

  /** Lines 50-74: collect, then sort largest first. */
  method CollectOptional(coins: seq<Coin>, rate: real) returns (optional: seq<Coin>)
    ensures optional == Sort(ByValue(rate), Positive(rate, coins))
  {
    optional := [];
    for i := 0 to |coins|
      invariant optional == Positive(rate, coins[..i])
    {
      assert coins[..i + 1][..i] == coins[..i];
      if coins[i].amount > CalculateFee(rate, InputWeight(coins[i].scriptType)) {
        optional := optional + [coins[i]];
      }
    }
    assert coins[..|coins|] == coins;
    optional := Sort(ByValue(rate), optional);
  }

  lemma {:induction false} NoneRequired(coins: seq<Coin>)
    ensures RequiredOf(coins) == [] <==> forall c :: c in coins ==> !c.required
  {
    if coins != [] {
      NoneRequired(coins[1..]);
      assert coins == [coins[0]] + coins[1..];
    }
  }

  /** `branch_and_bound`. */
  method SelectByBranchAndBound(coins: seq<Coin>, s: Spending) returns (r: Option<Selection>)
    ensures r == ExactMatch(coins, s)
  {
    hide Finalize, Price, SearchFrom, Sort, CostOfChange, Value, AtMost, Pick, Positive;
    NoneRequired(coins);
    if exists i :: 0 <= i < |coins| && coins[i].required {
      return None;
    }
    var optional := CollectOptional(coins, s.feeRate);
    SortPermutes(ByValue(s.feeRate), Positive(s.feeRate, coins));
    LengthKept(ByValue(s.feeRate), Positive(s.feeRate, coins));
    if optional == [] {
      return None;
    }
    if Price([], s) == 0 {
      assert Types([]) == [] && Amounts([]) == 0 && Indices([]) == [];
      var f := Finalize(0, [], s);
      return Some(Success([], f.fee, f.changeAmount, f.hasChange, f.weight));
    }
    var space := AtMost(s.feeRate, optional, Price([], s) + CostOfChange(s));
    if space == [] {
      return None;
    }
    assert space == SearchSpace(coins, s);
    var selection := RunSearch(space, s);
    if selection == None {
      return None;
    }
    SearchFindsMask(coins, s);
    var all, sum, types := CollectSelected(space, selection.value);
    var f := Finalize(sum, types, s);
    if f.CannotPay? {
      return None;
    }
    r := Some(Success(all, f.fee, f.changeAmount, f.hasChange, f.weight));
  }

  /** Lines 127-218. */
  method RunSearch(space: seq<Coin>, s: Spending) returns (selection: Option<seq<bool>>)
    ensures selection
            == SearchFrom(Values(s.feeRate, space), Target(s), Target(s) + CostOfChange(s), [], 0, 0).found
  {
    hide SearchFrom, Price, CostOfChange, Value;
    var vals := Values(s.feeRate, space);
    var suffixSums := SuffixSums(vals);
    var state := new SearchState(|vals|);
    assert state.selected[..0] == [];
    var stop := state.Search(0, vals, suffixSums, Price([], s), CostOfChange(s));
    selection := state.result;
  }

  /** Lines 221-231. */
  method CollectSelected(optional: seq<Coin>, selection: seq<bool>)
    returns (all: seq<nat>, sum: nat, types: seq<ScriptType>)
    requires |selection| == |optional|
    ensures var chosen := Pick(optional, selection, true);
            all == Indices(chosen) && sum == Amounts(chosen) && types == Types(chosen)
  {
    all, sum, types := [], 0, [];
    ghost var chosen: seq<Coin> := [];
    assert Pick([], [], true) == chosen && Amounts(chosen) == 0 && Types(chosen) == [] && Indices(chosen) == [];
    hide Pick, Amounts, Types, Indices;
    for i := 0 to |selection|
      invariant chosen == Pick(optional[..i], selection[..i], true)
      invariant all == Indices(chosen) && sum == Amounts(chosen) && types == Types(chosen)
    {
      assert optional[..i + 1] == optional[..i] + [optional[i]]
             && selection[..i + 1] == selection[..i] + [selection[i]];
      PickLast(optional[..i], selection[..i], optional[i], selection[i]);
      if selection[i] {
        AppendTotals(chosen, optional[i]);
        chosen := chosen + [optional[i]];
        all := all + [optional[i].index];
        sum := sum + optional[i].amount;
        types := types + [optional[i].scriptType];
      }
    }
    assert optional[..|optional|] == optional && selection[..|selection|] == selection;
  }

  // ----- where the coins come from -----

  lemma {:induction false} PickIsPart(coins: seq<Coin>, mask: seq<bool>)
    requires |mask| == |coins|
    ensures multiset(Pick(coins, mask, true)) <= multiset(coins)
  {
    if coins != [] {
      var n := |coins| - 1;
      PickIsPart(coins[..n], mask[..n]);
      assert coins == coins[..n] + [coins[n]];
    }
  }

  lemma PositiveIsPart(rate: real, coins: seq<Coin>)
    ensures multiset(Positive(rate, coins)) <= multiset(coins)
  {
    hide InputFee, Positive;
    forall c ensures multiset(Positive(rate, coins))[c] <= multiset(coins)[c] {
      PositiveCounts(rate, coins, c);
    }
  }

  lemma {:induction false} PositiveIsPositive(rate: real, coins: seq<Coin>)
    ensures forall c :: c in Positive(rate, coins) ==> c.amount > InputFee(rate, c)
  {
    hide CalculateFee;
    if coins != [] {
      PositiveIsPositive(rate, coins[..|coins| - 1]);
    }
  }

  /** The upper-bound filter drops exactly the coins that overshoot. */
  lemma {:induction false} AtMostCounts(rate: real, coins: seq<Coin>, hi: nat, c: Coin)
    ensures multiset(AtMost(rate, coins, hi))[c] == if Value(rate, c) <= hi then multiset(coins)[c] else 0
  {
    hide Value;
    if coins != [] {
      var n := |coins| - 1;
      AtMostCounts(rate, coins[..n], hi, c);
      assert coins == coins[..n] + [coins[n]];
    }
  }

  lemma SpaceIsPart(coins: seq<Coin>, s: Spending)
    ensures multiset(SearchSpace(coins, s)) <= multiset(coins)
    ensures forall c :: c in SearchSpace(coins, s) ==> c.amount > InputFee(s.feeRate, c)
  {
    hide CalculateFee, Price, CostOfChange, Sort, Positive, AtMost;
    var positive := Positive(s.feeRate, coins);
    var sorted := Sort(ByValue(s.feeRate), positive);
    PositiveIsPart(s.feeRate, coins);
    PositiveIsPositive(s.feeRate, coins);
    SortPermutes(ByValue(s.feeRate), positive);
    forall c ensures multiset(SearchSpace(coins, s))[c] <= multiset(sorted)[c] {
      AtMostCounts(s.feeRate, sorted, Target(s) + CostOfChange(s), c);
    }
    forall c | c in SearchSpace(coins, s) ensures c in positive {
      assert c in multiset(SearchSpace(coins, s));
      assert c in multiset(sorted);
      assert c in multiset(positive);
    }
  }

  lemma ValueIsTotal(rate: real)
    ensures TotalPreorder(ByValue(rate))
  {
    hide Value;
  }

  lemma {:induction false} AtMostInOrder(rate: real, coins: seq<Coin>, hi: nat)
    requires forall i, j :: 0 <= i < j < |coins| ==> Value(rate, coins[i]) >= Value(rate, coins[j])
    ensures var r := AtMost(rate, coins, hi);
            && (forall c :: c in r ==> c in coins)
            && forall i, j :: 0 <= i < j < |r| ==> Value(rate, r[i]) >= Value(rate, r[j])
  {
    hide Value;
    if coins != [] {
      var n := |coins| - 1;
      AtMostInOrder(rate, coins[..n], hi);
      var r := AtMost(rate, coins[..n], hi);
      forall i | 0 <= i < |r| ensures Value(rate, r[i]) >= Value(rate, coins[n]) {
        assert r[i] in coins[..n];
      }
    }
  }

  /** The search tries large coins first, and coins of equal value in the order given. */
  lemma LargestFirst(coins: seq<Coin>, s: Spending, z: Coin)
    ensures var space := SearchSpace(coins, s);
            forall i, j :: 0 <= i < j < |space| ==>
                             space[i].amount - InputFee(s.feeRate, space[i])
                             >= space[j].amount - InputFee(s.feeRate, space[j])
    ensures var same := (c: Coin) => c.amount - InputFee(s.feeRate, c) == z.amount - InputFee(s.feeRate, z);
            z in SearchSpace(coins, s) ==> Having(SearchSpace(coins, s), same) == Having(coins, same)
  {
    SpaceExactly(coins, s, z);
    SpaceIsPart(coins, s);
    FallingValues(coins, s);
    hide InputFee, SearchSpace;
    var space := SearchSpace(coins, s);
    assert forall i :: 0 <= i < |space| ==> space[i] in space;
    assert forall i :: 0 <= i < |space| ==>
                         Value(s.feeRate, space[i]) == space[i].amount - InputFee(s.feeRate, space[i]);
  }

  lemma FallingValues(coins: seq<Coin>, s: Spending)
    ensures var space := SearchSpace(coins, s);
            forall i, j :: 0 <= i < j < |space| ==> Value(s.feeRate, space[i]) >= Value(s.feeRate, space[j])
  {
    hide Value, Sort, Positive, AtMost;
    var le, positive := ByValue(s.feeRate), Positive(s.feeRate, coins);
    ValueIsTotal(s.feeRate);
    SortSorts(le, positive);
    var sorted := Sort(le, positive);
    forall i, j | 0 <= i < j < |sorted| ensures Value(s.feeRate, sorted[i]) >= Value(s.feeRate, sorted[j]) {
      assert le(sorted[i], sorted[j]);
    }
    AtMostInOrder(s.feeRate, sorted, Target(s) + CostOfChange(s));
    var space := SearchSpace(coins, s);
    assert space == AtMost(s.feeRate, sorted, Target(s) + CostOfChange(s));
    assert forall i, j :: 0 <= i < j < |space| ==> Value(s.feeRate, space[i]) >= Value(s.feeRate, space[j]);
  }

  lemma {:induction false} SumOfPicked(rate: real, coins: seq<Coin>, mask: seq<bool>)
    requires |mask| == |coins|
    ensures ChosenSum(Values(rate, coins), mask, |coins|) == ValueSum(rate, Pick(coins, mask, true))
  {
    if coins != [] {
      var n := |coins| - 1;
      SumOfPicked(rate, coins[..n], mask[..n]);
      SumOfShorter(Values(rate, coins), mask, n);
      assert Values(rate, coins)[..n] == Values(rate, coins[..n]);
      var kept := Pick(coins[..n], mask[..n], true);
      assert (kept + [coins[n]])[..|kept|] == kept;
      assert Pick(coins, mask, true) == if mask[n] then kept + [coins[n]] else kept;
    }
  }

  lemma {:induction false} SumOfShorter(vals: seq<nat>, mask: seq<bool>, k: nat)
    requires k <= |vals| && k <= |mask|
    ensures ChosenSum(vals, mask, k) == ChosenSum(vals[..k], mask[..k], k)
    decreases k
  {
    if k > 0 {
      SumOfShorter(vals, mask, k - 1);
      SumOfShorter(vals[..k], mask[..k], k - 1);
      assert vals[..k][..k - 1] == vals[..k - 1] && mask[..k][..k - 1] == mask[..k - 1];
    }
  }

  lemma {:induction false} ValueIsAmountLessFee(rate: real, coins: seq<Coin>)
    requires forall c :: c in coins ==> c.amount > InputFee(rate, c)
    ensures ValueSum(rate, coins) + InputFees(rate, coins) == Amounts(coins)
  {
    if coins != [] {
      var n := |coins| - 1;
      ValueIsAmountLessFee(rate, coins[..n]);
      assert coins[n] in coins;
    }
  }

  /** Soundness: what the search finds are coins of the list, each at most once, whose amounts less their own
      fees lie in the window from the target to the target plus the cost of change. */
  lemma FoundIsInWindow(coins: seq<Coin>, s: Spending)
    requires Found(coins, s).Some?
    ensures var chosen := Found(coins, s).value;
            && multiset(chosen) <= multiset(coins)
            && (forall c :: c in chosen ==> c.amount > InputFee(s.feeRate, c))
            && Price([], s) <= Amounts(chosen) - InputFees(s.feeRate, chosen) <= UpperEnd(s)
  {
    UpperEndIs(s);
    hide CalculateFee, Price, CostOfChange, UpperEnd, SearchFrom, SearchSpace;
    var space, mask := SearchSpace(coins, s), SearchOutcome(coins, s).found.value;
    SearchFindsMask(coins, s);
    SpaceIsPart(coins, s);
    PickIsPart(space, mask);
    PickedAreThere(space, mask, true);
    SumOfPicked(s.feeRate, space, mask);
    ValueIsAmountLessFee(s.feeRate, Pick(space, mask, true));
  }

  /** The selection returned is accounted for, like the greedy one. */
  lemma ExactMatchAccounts(coins: seq<Coin>, s: Spending) returns (chosen: seq<Coin>)
    requires ExactMatch(coins, s).Some?
    ensures Accounts(chosen, coins, s, ExactMatch(coins, s).value)
  {
    hide CalculateFee, SearchSpace, SearchOutcome;
    if Target(s) == 0 {
      chosen := [];
      assert Types([]) == [];
    } else {
      FoundIsInWindow(coins, s);
      chosen := Found(coins, s).value;
    }
  }

  // ----- completeness -----

  lemma {:induction false} RemoveOne(rate: real, t: seq<Coin>, k: nat)
    requires k < |t|
    ensures ValueSum(rate, t) == ValueSum(rate, t[..k] + t[k + 1..]) + Value(rate, t[k])
  {
    hide Value;
    var n := |t| - 1;
    var rest := t[..k] + t[k + 1..];
    if k == n {
      assert rest == t[..n];
    } else {
      RemoveOne(rate, t[..n], k);
      assert rest[..n - 1] == t[..n][..k] + t[..n][k + 1..];
      assert rest[n - 1] == t[n];
    }
  }

  /** Take the last coin of the list out of a sub-collection, if it is there. */
  lemma WithoutLast(rate: real, coins: seq<Coin>, c: Coin, t: seq<Coin>) returns (rest: seq<Coin>, b: bool)
    requires multiset(t) <= multiset(coins + [c])
    ensures multiset(rest) <= multiset(coins)
    ensures ValueSum(rate, t) == ValueSum(rate, rest) + if b then Value(rate, c) else 0
  {
    hide Value, ValueSum;
    assert multiset(coins + [c]) == multiset(coins) + multiset{c};
    rest, b := t, false;
    if c in t {
      var k :| 0 <= k < |t| && t[k] == c;
      RemoveOne(rate, t, k);
      TakeOut(t, k);
      rest, b := t[..k] + t[k + 1..], true;
    } else {
      assert c !in multiset(t);
    }
    forall x ensures multiset(rest)[x] <= multiset(coins)[x] {
      assert multiset(t)[x] <= multiset(coins + [c])[x];
    }
  }

  /** Any sub-collection of a list is picked by some mask. */
  lemma {:induction false} MaskOf(rate: real, coins: seq<Coin>, t: seq<Coin>) returns (mask: seq<bool>)
    requires multiset(t) <= multiset(coins)
    ensures |mask| == |coins|
    ensures ChosenSum(Values(rate, coins), mask, |coins|) == ValueSum(rate, t)
    decreases |coins|
  {
    hide Value;
    if coins == [] {
      mask := [];
      assert multiset(t) == multiset{};
      assert t == [];
    } else {
      var n := |coins| - 1;
      assert coins == coins[..n] + [coins[n]];
      var rest, b := WithoutLast(rate, coins[..n], coins[n], t);
      var m := MaskOf(rate, coins[..n], rest);
      mask := m + [b];
      SumOfShorter(Values(rate, coins), mask, n);
      assert Values(rate, coins)[..n] == Values(rate, coins[..n]) && mask[..n] == m;
    }
  }

  lemma {:induction false} SumAtLeast(rate: real, t: seq<Coin>, c: Coin)
    requires c in t
    ensures Value(rate, c) <= ValueSum(rate, t)
  {
    var n := |t| - 1;
    if c != t[n] {
      assert c in t[..n];
      SumAtLeast(rate, t[..n], c);
    }
  }

  lemma {:induction false} PickOfPositive(rate: real, coins: seq<Coin>, mask: seq<bool>)
    requires |mask| == |coins|
    requires forall c :: c in Pick(coins, mask, true) ==> c.amount > InputFee(rate, c)
    ensures multiset(Pick(coins, mask, true)) <= multiset(Positive(rate, coins))
  {
    if coins != [] {
      var n := |coins| - 1;
      assert forall c :: c in Pick(coins[..n], mask[..n], true) ==> c in Pick(coins, mask, true);
      PickOfPositive(rate, coins[..n], mask[..n]);
      if mask[n] {
        assert coins[n] in Pick(coins, mask, true);
      }
    }
  }

  lemma StaysInSpace(coins: seq<Coin>, s: Spending, t: seq<Coin>)
    requires multiset(t) <= multiset(Positive(s.feeRate, coins))
    requires ValueSum(s.feeRate, t) <= Target(s) + CostOfChange(s)
    ensures multiset(t) <= multiset(SearchSpace(coins, s))
  {
    hide CalculateFee, Price, CostOfChange, Sort, Positive, AtMost;
    var positive := Positive(s.feeRate, coins);
    SortPermutes(ByValue(s.feeRate), positive);
    forall c | c in t ensures multiset(t)[c] <= multiset(SearchSpace(coins, s))[c] {
      SumAtLeast(s.feeRate, t, c);
      AtMostCounts(s.feeRate, Sort(ByValue(s.feeRate), positive), Target(s) + CostOfChange(s), c);
    }
  }

  /** Completeness: when the search finds nothing before its limit, no choice whatever of coins with a positive
      effective value, not even of those the filter dropped, has effective values that sum into the window. */
  lemma SearchIsComplete(coins: seq<Coin>, s: Spending, mask: seq<bool>)
    requires |mask| == |coins|
    requires forall c :: c in Pick(coins, mask, true) ==> c.amount > InputFee(s.feeRate, c)
    requires SearchOutcome(coins, s).found.None? && SearchOutcome(coins, s).tries < MAX_TRIES
    ensures var t := Pick(coins, mask, true);
            !(Price([], s) <= Amounts(t) - InputFees(s.feeRate, t) <= UpperEnd(s))
  {
    SearchIsExact(Values(s.feeRate, SearchSpace(coins, s)), Target(s), Target(s) + CostOfChange(s), [], 0, 0);
    NoneInWindow(coins, s, mask);
  }

  lemma NoneInWindow(coins: seq<Coin>, s: Spending, mask: seq<bool>)
    requires |mask| == |coins|
    requires forall c :: c in Pick(coins, mask, true) ==> c.amount > InputFee(s.feeRate, c)
    requires !SearchOutcome(coins, s).stop
    ensures var t := Pick(coins, mask, true);
            !(Price([], s) <= Amounts(t) - InputFees(s.feeRate, t) <= UpperEnd(s))
  {
    UpperEndIs(s);
    hide UpperEnd, InputFee, Price, CostOfChange, SearchSpace, SearchFrom, Pick, Value, Positive;
    var t := Pick(coins, mask, true);
    ValueIsAmountLessFee(s.feeRate, t);
    var lo, hi := Target(s), Target(s) + CostOfChange(s);
    if lo <= ValueSum(s.feeRate, t) <= hi {
      PickOfPositive(s.feeRate, coins, mask);
      StaysInSpace(coins, s, t);
      var space := SearchSpace(coins, s);
      var m := MaskOf(s.feeRate, space, t);
      var c := TrimToSolution(Values(s.feeRate, space), lo, hi, m);
      SearchIsExact(Values(s.feeRate, space), lo, hi, [], 0, 0);
    }
  }

  // ----- what the selector returns -----

  lemma NonePositiveInNone(rate: real)
    ensures Positive(rate, []) == []
  {
  }

  lemma PositiveLast(rate: real, coins: seq<Coin>)
    requires coins != []
    ensures var n := |coins| - 1;
            Positive(rate, coins)
            == Positive(rate, coins[..n]) + if coins[n].amount > InputFee(rate, coins[n]) then [coins[n]] else []
  {
  }

  lemma {:induction false} PositiveCounts(rate: real, coins: seq<Coin>, c: Coin)
    ensures multiset(Positive(rate, coins))[c] == if c.amount > InputFee(rate, c) then multiset(coins)[c] else 0
  {
    hide InputFee, Positive;
    if coins == [] {
      assert Positive(rate, coins) == [] by { NonePositiveInNone(rate); }
    } else {
      var n := |coins| - 1;
      PositiveCounts(rate, coins[..n], c);
      PositiveLast(rate, coins);
      CountFront(coins, c);
      CountLast(Positive(rate, coins[..n]), coins[n], coins[n].amount > InputFee(rate, coins[n]), c);
    }
  }

  lemma {:induction false} PositiveInOrder(rate: real, coins: seq<Coin>, z: Coin)
    requires Value(rate, z) > 0
    ensures Equivalent(ByValue(rate), z, Positive(rate, coins)) == Equivalent(ByValue(rate), z, coins)
  {
    hide InputFee, Equivalent;
    var le := ByValue(rate);
    if coins != [] {
      var n := |coins| - 1;
      PositiveInOrder(rate, coins[..n], z);
      var front := Positive(rate, coins[..n]);
      assert coins == coins[..n] + [coins[n]] && front + [] == front;
      EquivalentLast(le, z, coins[..n], coins[n]);
      EquivalentLast(le, z, front, coins[n]);
    }
  }

  lemma {:induction false} AtMostKeepsEqual(rate: real, coins: seq<Coin>, hi: nat, z: Coin)
    requires Value(rate, z) <= hi
    ensures Equivalent(ByValue(rate), z, AtMost(rate, coins, hi)) == Equivalent(ByValue(rate), z, coins)
  {
    hide Value, Equivalent;
    var le := ByValue(rate);
    if coins != [] {
      var n := |coins| - 1;
      AtMostKeepsEqual(rate, coins[..n], hi, z);
      var front := AtMost(rate, coins[..n], hi);
      assert coins == coins[..n] + [coins[n]] && front + [] == front;
      EquivalentLast(le, z, coins[..n], coins[n]);
      EquivalentLast(le, z, front, coins[n]);
    }
  }

  /** The list the search runs on, exactly: the coins worth more than their fee whose effective value alone does not
      overshoot the window, by falling effective value, and among equals in the order given. */
  lemma SpaceExactly(coins: seq<Coin>, s: Spending, z: Coin)
    ensures multiset(SearchSpace(coins, s))[z]
            == if InputFee(s.feeRate, z) < z.amount <= InputFee(s.feeRate, z) + UpperEnd(s) then multiset(coins)[z]
               else 0
    ensures var same := (c: Coin) => c.amount - InputFee(s.feeRate, c) == z.amount - InputFee(s.feeRate, z);
            z in SearchSpace(coins, s) ==> Having(SearchSpace(coins, s), same) == Having(coins, same)
  {
    UpperEndIs(s);
    hide UpperEnd, CalculateFee, Having, Price, CostOfChange, Sort, Positive, AtMost, Equivalent;
    var le, positive, hi := ByValue(s.feeRate), Positive(s.feeRate, coins), Target(s) + CostOfChange(s);
    var sorted := Sort(le, positive);
    PositiveCounts(s.feeRate, coins, z);
    SortPermutes(le, positive);
    AtMostCounts(s.feeRate, sorted, hi, z);
    if z in SearchSpace(coins, s) {
      assert z in multiset(SearchSpace(coins, s));
      ValueIsTotal(s.feeRate);
      SortIsStable(le, positive, z);
      PositiveInOrder(s.feeRate, coins, z);
      AtMostKeepsEqual(s.feeRate, sorted, hi, z);
      EqualInOrder(s.feeRate, SearchSpace(coins, s), z);
      EqualInOrder(s.feeRate, coins, z);
    }
  }

  /** The order separates exactly the coins of different effective value. */
  lemma {:induction false} EqualInOrder(rate: real, coins: seq<Coin>, z: Coin)
    requires z.amount > InputFee(rate, z)
    ensures Equivalent(ByValue(rate), z, coins)
            == Having(coins, (c: Coin) => c.amount - InputFee(rate, c) == z.amount - InputFee(rate, z))
  {
    hide InputFee;
    if coins != [] {
      EqualInOrder(rate, coins[1..], z);
    }
  }

  /** The mask picks the first in-window solution of the search list, include before exclude, and the search gets to it
      within its limit of tries. */
  ghost predicate FirstMatch(coins: seq<Coin>, s: Spending, mask: seq<bool>) {
    var vals := Values(s.feeRate, SearchSpace(coins, s));
    First(vals, Price([], s), UpperEnd(s), [], mask) && Visit(vals, Price([], s), UpperEnd(s), [], 0).1 <= 1_000_000
  }

  lemma MatchLength(coins: seq<Coin>, s: Spending, mask: seq<bool>)
    requires FirstMatch(coins, s, mask)
    ensures |mask| == |SearchSpace(coins, s)|
  {
  }

  /** The coins of a match. */
  ghost predicate MatchedCoins(coins: seq<Coin>, s: Spending, chosen: seq<Coin>) {
    exists mask :: |mask| == |SearchSpace(coins, s)| && FirstMatch(coins, s, mask)
                   && chosen == Pick(SearchSpace(coins, s), mask, true)
  }

  lemma FoundIsMatched(coins: seq<Coin>, s: Spending, chosen: seq<Coin>)
    requires Price([], s) > 0
    ensures Found(coins, s) == Some(chosen) <==> MatchedCoins(coins, s, chosen)
  {
    UpperEndIs(s);
    hide UpperEnd, Price, CostOfChange, SearchFrom, SearchSpace, First, Visit, Pick;
    var space := SearchSpace(coins, s);
    var vals, lo, hi := Values(s.feeRate, space), Target(s), Target(s) + CostOfChange(s);
    if Found(coins, s) == Some(chosen) {
      SearchFindsMask(coins, s);
      SearchFindsExactly(vals, lo, hi, SearchOutcome(coins, s).found.value);
      MatchLength(coins, s, SearchOutcome(coins, s).found.value);
    }
    if mask :| |mask| == |space| && FirstMatch(coins, s, mask) && chosen == Pick(space, mask, true) {
      SearchFindsExactly(vals, lo, hi, mask);
      if space == [] {
        NothingMatches(vals, lo, hi, mask);
      }
    }
  }

  lemma NothingMatches(vals: seq<nat>, lo: nat, hi: nat, mask: seq<bool>)
    requires vals == [] && lo > 0
    ensures !First(vals, lo, hi, [], mask)
  {
  }

  /** What branch-and-bound returns.  It does not run when a coin is required or none is worth its fee.  Otherwise, with
      nothing to pay it selects nothing, and with anything to pay it answers exactly when the search has a first match
      and that pays, and selects its coins. */
  lemma ExactMatchExactly(coins: seq<Coin>, s: Spending)
    ensures (exists c :: c in coins && c.required) ==> ExactMatch(coins, s).None?
    ensures (forall c :: c in coins ==> c.amount <= InputFee(s.feeRate, c)) ==> ExactMatch(coins, s).None?
    ensures (forall c :: c in coins ==> !c.required) && (exists c :: c in coins && c.amount > InputFee(s.feeRate, c))
            && Price([], s) == 0 ==>
              ExactMatch(coins, s) == Some(Report([], FinalizeCoins([], s)))
    ensures (forall c :: c in coins ==> !c.required) && (exists c :: c in coins && c.amount > InputFee(s.feeRate, c))
            && Price([], s) > 0 ==>
              && (forall chosen :: MatchedCoins(coins, s, chosen) && Pays(chosen, s) ==>
                                     ExactMatch(coins, s) == Some(Report(chosen, FinalizeCoins(chosen, s))))
              && ((forall chosen :: MatchedCoins(coins, s, chosen) ==> !Pays(chosen, s)) ==> ExactMatch(coins, s).None?)
  {
    hide InputFee, Price, Found, MatchedCoins, Pays, FinalizeCoins, RequiredOf, Positive;
    NoneRequired(coins);
    NonePositive(s.feeRate, coins);
    if Price([], s) > 0 {
      if Found(coins, s).Some? {
        FoundIsMatched(coins, s, Found(coins, s).value);
        PaysFinalizes(Found(coins, s).value, s);
      }
      forall chosen ensures MatchedCoins(coins, s, chosen) <==> Found(coins, s) == Some(chosen) {
        FoundIsMatched(coins, s, chosen);
      }
    }
  }

  lemma NonePositive(rate: real, coins: seq<Coin>)
    ensures Positive(rate, coins) == [] <==> forall c :: c in coins ==> c.amount <= InputFee(rate, c)
  {
    hide InputFee, Positive;
    if Positive(rate, coins) == [] {
      forall c | c in coins ensures c.amount <= InputFee(rate, c) {
        PositiveCounts(rate, coins, c);
        assert c in multiset(coins);
      }
    } else {
      var c := Positive(rate, coins)[0];
      assert c in multiset(Positive(rate, coins));
      PositiveCounts(rate, coins, c);
      assert c in multiset(coins);
    }
  }

  /** Why nothing is returned: below the limit either no choice of coins worth more than their fee sums into the window,
      or the first match does not pay. */
  lemma NoMatchMeans(coins: seq<Coin>, s: Spending, mask: seq<bool>)
    requires ExactMatch(coins, s).None? && Price([], s) > 0 && forall c :: c in coins ==> !c.required
    requires Visit(Values(s.feeRate, SearchSpace(coins, s)), Price([], s), UpperEnd(s), [], 0).1 <= 1_000_000
    requires |mask| == |coins| && forall c :: c in Pick(coins, mask, true) ==> c.amount > InputFee(s.feeRate, c)
    ensures var t := Pick(coins, mask, true);
            || !(Price([], s) <= Amounts(t) - InputFees(s.feeRate, t) <= UpperEnd(s))
            || exists chosen :: MatchedCoins(coins, s, chosen) && !Pays(chosen, s)
  {
    hide UpperEnd, InputFee, Price, SearchSpace, Visit, Pays, Pick, MatchedCoins, SearchOutcome, ExactMatch;
    WithinLimit(coins, s);
    if !SearchOutcome(coins, s).stop {
      NoneInWindow(coins, s, mask);
    } else if exists c :: c in coins && c.amount > InputFee(s.feeRate, c) {
      MatchDidNotPay(coins, s);
    } else {
      NothingToPick(coins, s, mask);
    }
  }

  lemma WithinLimit(coins: seq<Coin>, s: Spending)
    requires Visit(Values(s.feeRate, SearchSpace(coins, s)), Price([], s), UpperEnd(s), [], 0).1 <= 1_000_000
    ensures SearchOutcome(coins, s).stop ==> SearchOutcome(coins, s).found.Some?
  {
    UpperEndIs(s);
    hide UpperEnd, Price, CostOfChange, SearchSpace, Visit, SearchFrom;
    SearchIsVisit(Values(s.feeRate, SearchSpace(coins, s)), Target(s), Target(s) + CostOfChange(s), [], 0, 0);
  }

  lemma MatchDidNotPay(coins: seq<Coin>, s: Spending)
    requires ExactMatch(coins, s).None? && Price([], s) > 0 && forall c :: c in coins ==> !c.required
    requires exists c :: c in coins && c.amount > InputFee(s.feeRate, c)
    requires SearchOutcome(coins, s).found.Some?
    ensures exists chosen :: MatchedCoins(coins, s, chosen) && !Pays(chosen, s)
  {
    StopIsFound(coins, s);
    hide InputFee, Price, Pays, FinalizeCoins, MatchedCoins, Positive, Found, SearchOutcome, RequiredOf;
    NoneRequired(coins);
    NonePositive(s.feeRate, coins);
    var chosen := Found(coins, s).value;
    FoundIsMatched(coins, s, chosen);
    PaysFinalizes(chosen, s);
  }

  lemma StopIsFound(coins: seq<Coin>, s: Spending)
    requires SearchOutcome(coins, s).found.Some? && Price([], s) > 0
    ensures Found(coins, s).Some?
  {
    hide Price, SearchSpace, SearchOutcome;
    EmptyFindsNothing(coins, s);
  }

  lemma EmptyFindsNothing(coins: seq<Coin>, s: Spending)
    requires Price([], s) > 0
    ensures SearchSpace(coins, s) == [] ==> SearchOutcome(coins, s).found.None?
  {
    hide Price, CostOfChange, SearchSpace;
    SearchEnds(Values(s.feeRate, SearchSpace(coins, s)), Target(s), Target(s) + CostOfChange(s), [], 0, 0);
  }

  lemma NothingToPick(coins: seq<Coin>, s: Spending, mask: seq<bool>)
    requires |mask| == |coins| && forall c :: c in coins ==> c.amount <= InputFee(s.feeRate, c)
    requires forall c :: c in Pick(coins, mask, true) ==> c.amount > InputFee(s.feeRate, c)
    requires Price([], s) > 0
    ensures Amounts(Pick(coins, mask, true)) - InputFees(s.feeRate, Pick(coins, mask, true)) < Price([], s)
  {
    hide InputFee, Price, Pick;
    SomePicked(coins, mask);
  }

  lemma SomePicked(coins: seq<Coin>, mask: seq<bool>)
    requires |mask| == |coins|
    ensures Pick(coins, mask, true) == [] || exists c :: c in Pick(coins, mask, true) && c in coins
  {
    hide Pick;
    PickedAreThere(coins, mask, true);
    if Pick(coins, mask, true) != [] {
      assert Pick(coins, mask, true)[0] in coins;
    }
  }

  // ----- from the search to the finished transaction -----

  lemma {:induction false} PickNothing(coins: seq<Coin>)
    ensures Pick(coins, Falses(|coins|), true) == [] && Pick(coins, Falses(|coins|), false) == coins
  {
    if coins != [] {
      var n := |coins| - 1;
      PickNothing(coins[..n]);
      assert Falses(|coins|)[..n] == Falses(n);
      assert coins == coins[..n] + [coins[n]];
    }
  }

  /** The gap between search and finalisation: coins whose effective values exceed the target by the fee of the
      overhead the search ignores (segwit marker, empty witnesses, a longer input count) always finalise. */
  lemma OvershootFinalizes(chosen: seq<Coin>, s: Spending)
    requires Amounts(chosen) - InputFees(s.feeRate, chosen)
             >= Target(s) + CalculateFee(s.feeRate, InputOverhead(Types(chosen)))
    ensures FinalizeCoins(chosen, s).Finalized?
  {
    hide CalculateFee, Pick, TransactionWeight, Finalize, InputOverhead, InputFees, Amounts;
    PickNothing(chosen);
    NoInputsNoOverhead();
    FeeOfDropped([], chosen, Falses(|chosen|), s.feeRate, OutputWeights(s.outputs));
    var nothing: seq<Coin> := [];
    assert nothing + chosen == chosen && nothing + nothing == nothing && Types(nothing) == [];
  }

  lemma NoInputsNoOverhead()
    ensures InputOverhead([]) == 0
  {
  }

  // ----- no change output at whole-number rates -----

  predicate Aligned(t: ScriptType) {
    t.SpendWitness? || t.SpendP2SHWitness?
  }

  lemma {:induction false} AlignedFees(rate: nat, coins: seq<Coin>)
    requires forall c :: c in coins ==> Aligned(c.scriptType)
    ensures InputWeights(Types(coins)) % 4 == 0
    ensures InputFees(rate as real, coins) == rate * (InputWeights(Types(coins)) / 4)
  {
    hide CalculateFee, InputWeights, WeightToVbytes;
    if coins == [] {
      assert InputWeights(Types(coins)) == 0 by { EmptyWeights(); }
    } else {
      var n := |coins| - 1;
      AlignedFees(rate, coins[..n]);
      assert coins == coins[..n] + [coins[n]] && coins[n] in coins;
      Append(coins[..n], coins[n]);
      var w, v := InputWeights(Types(coins[..n])), InputWeight(coins[n].scriptType);
      WholeRateFee(rate, v);
      QuartersAdd(rate, w, v);
    }
  }

  lemma EmptyWeights()
    ensures InputWeights(Types([])) == 0
  {
  }

  lemma QuartersAdd(rate: nat, w: nat, v: nat)
    requires w % 4 == 0 && v % 4 == 0
    ensures (w + v) % 4 == 0 && WeightToVbytes(v) == v / 4
    ensures rate * ((w + v) / 4) == rate * (w / 4) + rate * (v / 4)
  {
    assert (w + v) / 4 == w / 4 + v / 4;
  }

  lemma {:induction false} AlignedSum(ws: seq<nat>)
    requires forall i :: 0 <= i < |ws| ==> ws[i] % 4 == 0
    ensures Sum(ws) % 4 == 0
  {
    if ws != [] {
      AlignedSum(ws[..|ws| - 1]);
    }
  }

  lemma AlignedBase(s: Spending)
    requires forall o :: o in s.outputs ==> o.weight % 4 == 0
    ensures var ws := OutputWeights(s.outputs);
            && TransactionWeight([], ws) == BaseWeight(ws)
            && BaseWeight(ws) % 4 == 0
            && BaseWeight(ws + [OutputWeight(s.changeType)]) >= BaseWeight(ws) + OutputWeight(s.changeType)
  {
    var ws, w := OutputWeights(s.outputs), OutputWeight(s.changeType);
    forall i | 0 <= i < |ws| ensures ws[i] % 4 == 0 {
      assert s.outputs[i] in s.outputs;
    }
    AlignedSum(ws);
    assert (ws + [w])[..|ws|] == ws;
  }

  lemma MarkerCosts(chosen: seq<Coin>)
    requires chosen != [] && forall c :: c in chosen ==> Aligned(c.scriptType)
    ensures InputOverhead(Types(chosen)) >= 2
  {
    CountOfUniform(chosen);
    assert chosen[0] in chosen;
  }

  /** With aligned inputs and outputs the change transaction takes one vbyte more than its parts. */
  lemma OneMoreVbyte(chosen: seq<Coin>, s: Spending)
    requires chosen != [] && forall c :: c in chosen ==> Aligned(c.scriptType)
    requires forall o :: o in s.outputs ==> o.weight % 4 == 0
    requires InputWeights(Types(chosen)) % 4 == 0
    ensures WeightToVbytes(WeightWithChange(Types(chosen), s))
            >= WeightToVbytes(TransactionWeight([], OutputWeights(s.outputs)))
               + InputWeights(Types(chosen)) / 4 + WeightToVbytes(OutputWeight(s.changeType)) + 1
  {
    hide InputWeights, InputOverhead, BaseWeight;
    AlignedBase(s);
    MarkerCosts(chosen);
  }

  lemma FactorOut(rate: nat, a: nat, b: nat, c: nat, d: nat)
    requires d >= a + b + c + 1
    ensures rate * d >= rate * a + rate * b + rate * c + rate
  {
    assert rate * d >= rate * (a + b + c + 1);
  }

  /** At a whole-number fee rate, with native or nested segwit coins and outputs whose weights are multiples
      of four, a branch-and-bound selection never carries change: the segwit marker always costs one vbyte
      that the per-coin fees did not pay for, so the overshoot stays below the dust limit. */
  lemma NoChangeAtWholeRates(coins: seq<Coin>, s: Spending, rate: nat)
    requires rate >= 1 && s.feeRate == rate as real
    requires forall c :: c in coins ==> Aligned(c.scriptType)
    requires forall o :: o in s.outputs ==> o.weight % 4 == 0
    requires ExactMatch(coins, s).Some?
    ensures !ExactMatch(coins, s).value.hasChange
  {
    hide CalculateFee, TransactionWeight, WeightWithChange, Found;
    TargetIsPositive(s);
    FoundIsInWindow(coins, s);
    var chosen := Found(coins, s).value;
    assert forall c :: c in chosen ==> c in multiset(coins);
    assert chosen != [];
    AlignedFees(rate, chosen);
    OneMoreVbyte(chosen, s);
    ChangeCostsMore(chosen, s, rate);
  }

  lemma TargetIsPositive(s: Spending)
    requires s.feeRate > 0.0
    ensures Target(s) > 0
  {
    PositiveRateFee(s.feeRate, TransactionWeight([], OutputWeights(s.outputs)));
  }

  lemma ChangeCostsMore(chosen: seq<Coin>, s: Spending, rate: nat)
    requires rate >= 1 && s.feeRate == rate as real
    requires InputFees(s.feeRate, chosen) == rate * (InputWeights(Types(chosen)) / 4)
    requires WeightToVbytes(WeightWithChange(Types(chosen), s))
             >= WeightToVbytes(TransactionWeight([], OutputWeights(s.outputs)))
                + InputWeights(Types(chosen)) / 4 + WeightToVbytes(OutputWeight(s.changeType)) + 1
    ensures Target(s) + CostOfChange(s) + InputFees(s.feeRate, chosen)
            < OutputSum(s.outputs) + FeeWithChange(Types(chosen), s) + DustAmount(s.changeType)
  {
    hide CalculateFee, TransactionWeight, WeightWithChange, InputFees, WeightToVbytes, DustAmount;
    var a, b := TransactionWeight([], OutputWeights(s.outputs)), InputWeights(Types(chosen));
    var c := OutputWeight(s.changeType);
    var d := WeightWithChange(Types(chosen), s);
    WholeRateFee(rate, a);
    WholeRateFee(rate, c);
    WholeRateFee(rate, d);
    FactorOut(rate, WeightToVbytes(a), b / 4, WeightToVbytes(c), WeightToVbytes(d));
  }
}
