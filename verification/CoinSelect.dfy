/** The dispatcher between the selectors (coinselect/mod.rs) and the send-max selector (split.rs). */
module CoinSelect {
  import opened Weight
  import opened CoinSelection
  import opened Accumulative
  import opened BranchAndBound

  const COINBASE_MIN_CONFIRMATIONS: nat := 100

  /** `xs.get(i).copied().unwrap_or(default)`. */
  function At<T>(xs: seq<T>, i: nat, default: T): T {
    if i < |xs| then xs[i] else default
  }

  /** The coins at positions that are not immature coinbase. */
  function Mature(coins: seq<Coin>, confirmations: seq<nat>, coinbase: seq<bool>): seq<Coin> {
    if coins == [] then []
    else
      var n := |coins| - 1;
      Mature(coins[..n], confirmations, coinbase)
      + if At(coinbase, n, false) && At(confirmations, n, 0) < COINBASE_MIN_CONFIRMATIONS then [] else [coins[n]]
  }

  function SpecifiedSum(outputs: seq<Output>): nat {
    if outputs == [] then 0
    else
      var o := outputs[|outputs| - 1];
      SpecifiedSum(outputs[..|outputs| - 1]) + if o.isSendMax then 0 else o.amount
  }

  function Split(coins: seq<Coin>, s: Spending, confirmations: seq<nat>, coinbase: seq<bool>): Selection {
    var eligible := Mature(coins, confirmations, coinbase);
    var weight := TransactionWeight(Types(eligible), OutputWeights(s.outputs));
    var fee := CalculateFee(s.feeRate, weight) + s.baseFee;
    var sum, specified := Amounts(eligible), SpecifiedSum(s.outputs);
    if eligible == [] || sum < specified + fee || sum - specified - fee < DustAmount(s.changeType)
    then InsufficientFunds
    else SendMax(Indices(eligible), sum - specified - fee, fee, weight)
  }

  /** `split`. */
  method SelectAll(coins: seq<Coin>, s: Spending, confirmations: seq<nat>, coinbase: seq<bool>) returns (r: Selection)
    ensures r == Split(coins, s, confirmations, coinbase)
  {
    hide CalculateFee, TransactionWeight, DustAmount;
    var selected: seq<nat>, types: seq<ScriptType>, inputSum: nat := [], [], 0;
    ghost var chosen: seq<Coin> := [];
    for i := 0 to |coins|
      invariant chosen == Mature(coins[..i], confirmations, coinbase)
      invariant selected == Indices(chosen) && types == Types(chosen) && inputSum == Amounts(chosen)
    {
      assert coins[..i + 1][..i] == coins[..i];
      if At(coinbase, i, false) && At(confirmations, i, 0) < COINBASE_MIN_CONFIRMATIONS {
        continue;
      }
      Append(chosen, coins[i]);
      chosen := chosen + [coins[i]];
      selected := selected + [coins[i].index];
      types := types + [coins[i].scriptType];
      inputSum := inputSum + coins[i].amount;
    }
    assert coins[..|coins|] == coins;
    if selected == [] {
      return InsufficientFunds;
    }
    var weight := TransactionWeight(types, OutputWeights(s.outputs));
    var fee := CalculateFee(s.feeRate, weight) + s.baseFee;
    var specified := SpecifiedSum(s.outputs);
    if inputSum < specified + fee {
      return InsufficientFunds;
    }
    var remaining := inputSum - specified - fee;
    if remaining < DustAmount(s.changeType) {
      return InsufficientFunds;
    }
    r := SendMax(selected, remaining, fee, weight);
  }

  lemma {:induction false} MatureIsPart(coins: seq<Coin>, confirmations: seq<nat>, coinbase: seq<bool>)
    ensures multiset(Mature(coins, confirmations, coinbase)) <= multiset(coins)
  {
    if coins != [] {
      MatureIsPart(coins[..|coins| - 1], confirmations, coinbase);
      assert coins == coins[..|coins| - 1] + [coins[|coins| - 1]];
    }
  }

  /** Send-max takes the coins at mature positions, in order. */
  lemma {:induction false} MatureInOrder(coins: seq<Coin>, confirmations: seq<nat>, coinbase: seq<bool>)
    returns (mask: seq<bool>)
    ensures |mask| == |coins| && Mature(coins, confirmations, coinbase) == Pick(coins, mask, true)
    ensures forall i :: 0 <= i < |coins| ==> (mask[i] <==> MatureAt(i, confirmations, coinbase))
  {
    mask := [];
    if coins != [] {
      var n := |coins| - 1;
      var front := MatureInOrder(coins[..n], confirmations, coinbase);
      mask := front + [MatureAt(n, confirmations, coinbase)];
      assert mask[..n] == front;
    }
  }

  /** When send-max is refused: no coin is mature, or the mature ones do not bring the payments, the fee and the base
      fee with at least the dust amount left. */
  lemma SplitExactly(coins: seq<Coin>, s: Spending, confirmations: seq<nat>, coinbase: seq<bool>)
    ensures var taken := Mature(coins, confirmations, coinbase);
            var fee := CalculateFee(s.feeRate, TransactionWeight(Types(taken), OutputWeights(s.outputs))) + s.baseFee;
            var r := Split(coins, s, confirmations, coinbase);
            && (r.InsufficientFunds?
                <==> taken == [] || Amounts(taken) < SpecifiedSum(s.outputs) + fee + DustAmount(s.changeType))
            && (!r.InsufficientFunds? ==>
                  && r.SendMax? && r.selected == Indices(taken) && r.fee == fee
                  && Amounts(taken) == SpecifiedSum(s.outputs) + r.maxAmount + fee)
  {
    hide CalculateFee, TransactionWeight, DustAmount, SpecifiedSum;
  }

  predicate MatureAt(i: nat, confirmations: seq<nat>, coinbase: seq<bool>) {
    At(coinbase, i, false) ==> At(confirmations, i, 0) >= COINBASE_MIN_CONFIRMATIONS
  }

  /** Send-max takes exactly the coins at mature positions, required or not. */
  lemma {:induction false} MatureExactly(coins: seq<Coin>, confirmations: seq<nat>, coinbase: seq<bool>, c: Coin)
    ensures c in Mature(coins, confirmations, coinbase)
            <==> exists i :: 0 <= i < |coins| && coins[i] == c && MatureAt(i, confirmations, coinbase)
  {
    if coins != [] {
      var n := |coins| - 1;
      MatureExactly(coins[..n], confirmations, coinbase, c);
      if i :| 0 <= i < |coins| && coins[i] == c && MatureAt(i, confirmations, coinbase) {
        if i < n {
          assert coins[..n][i] == c;
        }
      }
      if c in Mature(coins[..n], confirmations, coinbase) {
        var i :| 0 <= i < n && coins[..n][i] == c && MatureAt(i, confirmations, coinbase);
        assert coins[i] == c;
      }
    }
  }

  function HasSendMax(outputs: seq<Output>): bool {
    exists i :: 0 <= i < |outputs| && outputs[i].isSendMax
  }

  function Select(coins: seq<Coin>, s: Spending, confirmations: seq<nat>, coinbase: seq<bool>): Selection {
    if HasSendMax(s.outputs) then Split(coins, s, confirmations, coinbase)
    else
      var exact := ExactMatch(coins, s);
      if exact.Some? then exact.value else Greedy(coins, s)
  }

  /** `coinselect`. */
  method SelectCoins(coins: seq<Coin>, s: Spending, confirmations: seq<nat>, coinbase: seq<bool>) returns (r: Selection)
    ensures r == Select(coins, s, confirmations, coinbase)
  {
    hide Split, ExactMatch, Greedy;
    if HasSendMax(s.outputs) {
      r := SelectAll(coins, s, confirmations, coinbase);
      return;
    }
    var exact := SelectByBranchAndBound(coins, s);
    if exact.Some? {
      return exact.value;
    }
    r := SelectGreedily(coins, s);
  }

  lemma NoneWorthNoneMatched(coins: seq<Coin>, s: Spending, chosen: seq<Coin>)
    requires Price([], s) > 0 && MatchedCoins(coins, s, chosen)
    ensures exists c :: c in coins && c.amount > InputFee(s.feeRate, c)
  {
    hide Price, InputFee, Found, MatchedCoins;
    FoundIsMatched(coins, s, chosen);
    MatchedNeedsSpace(coins, s);
    SpaceIsPart(coins, s);
    var c := SearchSpace(coins, s)[0];
    assert c in SearchSpace(coins, s) && c in multiset(SearchSpace(coins, s));
    assert c in multiset(coins);
    assert c in coins && c.amount > InputFee(s.feeRate, c);
  }

  lemma MatchedNeedsSpace(coins: seq<Coin>, s: Spending)
    ensures Found(coins, s).Some? ==> SearchSpace(coins, s) != []
  {
    hide SearchSpace, SearchOutcome;
  }

  /** Which selection a fixed payment gets, whatever the confirmations: without a required coin, that of the first match
      if it pays; in every other case the greedy one. */
  lemma SelectExactly(coins: seq<Coin>, s: Spending, confirmations: seq<nat>, coinbase: seq<bool>)
    requires !HasSendMax(s.outputs) && Price([], s) > 0
    ensures var r := Select(coins, s, confirmations, coinbase);
            if (forall c :: c in coins ==> !c.required)
               && exists chosen :: MatchedCoins(coins, s, chosen) && Pays(chosen, s)
            then exists chosen :: MatchedCoins(coins, s, chosen) && Pays(chosen, s)
                                  && r == Report(chosen, FinalizeCoins(chosen, s))
            else r == Greedy(coins, s)
  {
    hide Price, InputFee, ExactMatch, Greedy, MatchedCoins, Pays, FinalizeCoins, Report;
    ExactMatchExactly(coins, s);
    var unrequired := forall c :: c in coins ==> !c.required;
    if unrequired && exists chosen :: MatchedCoins(coins, s, chosen) && Pays(chosen, s) {
      var chosen :| MatchedCoins(coins, s, chosen) && Pays(chosen, s);
      NoneWorthNoneMatched(coins, s, chosen);
      PaysFinalizes(chosen, s);
    } else {
      assert ExactMatch(coins, s).None?;
    }
  }

  /** Both selectors of fixed payments keep the same account of what they select. */
  lemma SelectAccounts(coins: seq<Coin>, s: Spending, confirmations: seq<nat>, coinbase: seq<bool>)
    returns (chosen: seq<Coin>)
    requires !HasSendMax(s.outputs) && !Select(coins, s, confirmations, coinbase).InsufficientFunds?
    ensures Accounts(chosen, coins, s, Select(coins, s, confirmations, coinbase))
  {
    hide ExactMatch, Greedy, Accounts;
    if ExactMatch(coins, s).Some? {
      chosen := ExactMatchAccounts(coins, s);
    } else {
      chosen := GreedyAccounts(coins, s);
    }
  }

  lemma NothingFromNothing(s: Spending, confirmations: seq<nat>, coinbase: seq<bool>)
    ensures Select([], s, confirmations, coinbase).InsufficientFunds?
  {
    hide CalculateFee, Finalize;
  }
}
